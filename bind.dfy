/** bind.go: binding the values of a request (a map from key to the list
    of values sent under it) into a destination. Reflection is replaced by
    a description of the destination: a map, a struct given as the list of
    its fields (their tags, kinds and whether they can be set), or anything
    else. The order in which Go's map iteration meets the keys is a
    parameter, so the case-insensitive search is deterministic. */
module Bind {
  import opened GoTypes
  import Strings
  import Strconv

  /** The bit size of an integer field; `Native` is Go's `int`/`uint`. */
  datatype Width = Native | W8 | W16 | W32 | W64

  function Bits(w: Width): (b: nat)
    ensures b in {0, 8, 16, 32, 64}
  {
    match w
    case Native => 0
    case W8 => 8
    case W16 => 16
    case W32 => 32
    case W64 => 64
  }

  /** The kinds of field the binder handles; any other kind is `Other`.
      Floating-point fields are not modelled. */
  datatype Kind = IntKind(w: Width) | UintKind(w: Width) | BoolKind | StringKind | SliceKind(elem: Kind) | Other

  /** The value held by a field. */
  datatype Value = IntVal(i: int) | UintVal(n: nat) | BoolVal(b: bool) | StringVal(s: GoString) | SliceVal(elems: seq<Value>) | Opaque

  /** A field of a struct destination: its tags by tag name, its kind, and
      whether reflection may set it (an exported field). */
  datatype FieldSpec = FieldSpec(tags: map<GoString, GoString>, kind: Kind, settable: bool)

  /** What the destination points to. */
  datatype Shape = NilDest | MapDest | StructDest(fields: seq<FieldSpec>) | OtherDest

  /** Request values: every key was sent with at least one value. */
  type Data = map<GoString, seq<GoString>>

  /** The zero value of a fresh slice element. */
  function Zero(k: Kind): Value {
    match k
    case IntKind(_) => IntVal(0)
    case UintKind(_) => UintVal(0)
    case BoolKind => BoolVal(false)
    case StringKind => StringVal([])
    case SliceKind(_) => SliceVal([])
    case Other => Opaque
  }

  /** `setIntField(value, bits, field)`: "" is read as "0"; the field is
      set only when ParseInt succeeds, and the error is returned. */
  function SetIntField(s: GoString, w: Width, cur: Value): (r: (Value, Option<Error>))
    ensures r.1 == Strconv.ParseInt(if s == [] then "0" else s, Bits(w)).err
    ensures r.1.Some? ==> r.0 == cur
    ensures r.1.None? ==> r.0 == IntVal(Strconv.ParseInt(if s == [] then "0" else s, Bits(w)).value)
  {
    var v := if s == [] then "0" else s;
    var p := Strconv.ParseInt(v, Bits(w));
    if p.err.None? then (IntVal(p.value), None) else (cur, p.err)
  }

  /** `setUintField(value, bits, field)`: "" is read as "0". */
  function SetUintField(s: GoString, w: Width, cur: Value): (r: (Value, Option<Error>))
    ensures r.1 == Strconv.ParseUint(if s == [] then "0" else s, Bits(w)).err
    ensures r.1.Some? ==> r.0 == cur
    ensures r.1.None? ==> r.0 == UintVal(Strconv.ParseUint(if s == [] then "0" else s, Bits(w)).value)
  {
    var v := if s == [] then "0" else s;
    var p := Strconv.ParseUint(v, Bits(w));
    if p.err.None? then (UintVal(p.value), None) else (cur, p.err)
  }

  /** `setBoolField(value, field)`: "" is read as "false". */
  function SetBoolField(s: GoString, cur: Value): (r: (Value, Option<Error>))
    ensures r.1 == Strconv.ParseBool(if s == [] then "false" else s).err
    ensures r.1.Some? ==> r.0 == cur
    ensures r.1.None? ==> r.0 == BoolVal(Strconv.ParseBool(if s == [] then "false" else s).value)
  {
    var v := if s == [] then "false" else s;
    var p := Strconv.ParseBool(v);
    if p.err.None? then (BoolVal(p.value), None) else (cur, p.err)
  }

  /** `setWithProperType(kind, val, field)` for the kinds modelled: a
      string is stored as it is, and a slice or any other kind is an
      "unknown type" error that leaves the field as it was. */
  function SetWithProperType(k: Kind, s: GoString, cur: Value): (Value, Option<Error>) {
    match k
    case IntKind(w) => SetIntField(s, w, cur)
    case UintKind(w) => SetUintField(s, w, cur)
    case BoolKind => SetBoolField(s, cur)
    case StringKind => (StringVal(s), None)
    case _ => (cur, Some(ErrUnknownType))
  }

  /** An empty value sets an int or uint field of any width to 0 and a
      bool field to false, without error. */
  lemma EmptyIsZero(k: Kind, cur: Value)
    requires k.IntKind? || k.UintKind? || k.BoolKind?
    ensures SetWithProperType(k, [], cur) == (Zero(k), None)
  {
    match k
    case IntKind(w) =>
      assert Strconv.AllDigits("0");
      assert Strconv.DigitsValue("0") == 0;
    case UintKind(w) =>
      assert Strconv.AllDigits("0");
      assert Strconv.DigitsValue("0") == 0;
    case BoolKind =>
  }

  /** A value that does not parse leaves the field as it was and reports
      the error; only a string field takes every value. */
  lemma ErrorKeepsField(k: Kind, s: GoString, cur: Value)
    ensures var r := SetWithProperType(k, s, cur);
      && (r.1.Some? ==> r.0 == cur)
      && (k == StringKind ==> r == (StringVal(s), None))
  {
  }

  /** The decimal text of a 64-bit integer binds an int field to it. */
  lemma IntRoundTrip(n: int)
    requires Strconv.MinInt64 <= n <= Strconv.MaxInt64
    ensures forall cur: Value :: SetWithProperType(IntKind(W64), Strconv.Itoa(n), cur) == (IntVal(n), None)
  {
    Strconv.AtoiItoa(n);
    Strconv.ItoaShape(n);
    assert Strconv.Itoa(n) != [];
  }

  // ---- finding the values of a field ----

  /** The first key met, in the iteration `order`, that equals `name` under
      case folding. */
  function FoldSearch(order: seq<GoString>, name: GoString): (r: Option<GoString>)
    ensures r.Some? ==> r.value in order && Strings.EqualFold(r.value, name)
    ensures r.None? ==> forall k | k in order :: !Strings.EqualFold(k, name)
  {
    if order == [] then None
    else if Strings.EqualFold(order[0], name) then Some(order[0])
    else FoldSearch(order[1..], name)
  }

  /** The values bound to a field named `name`: those of the key `name`
      itself, or else those of the first key the search meets that equals
      it under case folding. */
  function Lookup(data: Data, order: seq<GoString>, name: GoString): (r: Option<seq<GoString>>)
    requires forall k | k in order :: k in data
  {
    if name in data then Some(data[name])
    else match FoldSearch(order, name)
      case None => None
      case Some(k) => Some(data[k])
  }

  /** The exact key wins over any key that only equals it under case
      folding; a key found by folding equals the name under case folding
      and is the first such key the search meets; when no key matches,
      nothing is found. */
  lemma LookupRules(data: Data, order: seq<GoString>, name: GoString)
    requires forall k | k in order :: k in data
    requires forall k | k in data :: k in order
    ensures name in data ==> Lookup(data, order, name) == Some(data[name])
    ensures name !in data && (exists k | k in data :: Strings.EqualFold(k, name)) ==>
      exists i | 0 <= i < |order| ::
        && Strings.EqualFold(order[i], name)
        && (forall j | 0 <= j < i :: !Strings.EqualFold(order[j], name))
        && Lookup(data, order, name) == Some(data[order[i]])
    ensures (forall k | k in data :: !Strings.EqualFold(k, name)) ==> Lookup(data, order, name) == None
  {
    if name !in data && exists k | k in data :: Strings.EqualFold(k, name) {
      var k :| k in data && Strings.EqualFold(k, name);
      assert k in order;
      var i := FoldSearchFirst(order, name);
      assert 0 <= i < |order|
        && Strings.EqualFold(order[i], name)
        && (forall j | 0 <= j < i :: !Strings.EqualFold(order[j], name))
        && Lookup(data, order, name) == Some(data[order[i]]);
    }
  }

  lemma {:induction false} FoldSearchFirst(order: seq<GoString>, name: GoString) returns (i: int)
    requires exists k | k in order :: Strings.EqualFold(k, name)
    ensures 0 <= i < |order| && Strings.EqualFold(order[i], name)
    ensures forall j | 0 <= j < i :: !Strings.EqualFold(order[j], name)
    ensures FoldSearch(order, name) == Some(order[i])
    decreases |order|
  {
    if Strings.EqualFold(order[0], name) {
      i := 0;
    } else {
      var k :| k in order && Strings.EqualFold(k, name);
      assert k in order[1..];
      var i' := FoldSearchFirst(order[1..], name);
      i := i' + 1;
      forall j | 1 <= j < i ensures !Strings.EqualFold(order[j], name) {
        assert order[j] == order[1..][j - 1];
      }
    }
  }

  /** The search loop over `data` for a key equal to the name under case
      folding, which breaks at the first one. */
  method FindFold(order: seq<GoString>, name: GoString) returns (r: Option<GoString>)
    ensures r == FoldSearch(order, name)
  {
    var i := 0;
    while i < |order|
      invariant 0 <= i <= |order|
      invariant FoldSearch(order[i..], name) == FoldSearch(order, name)
    {
      assert order[i..][1..] == order[i + 1..];
      if Strings.EqualFold(order[i], name) {
        return Some(order[i]);
      }
      i := i + 1;
    }
    return None;
  }

  // ---- binding a field ----

  /** The elements of a slice field built from `input`, each a fresh zero
      value set from its string, up to the first error. */
  function SliceElems(elem: Kind, input: seq<GoString>): (r: Returned<seq<Value>>)
    ensures r.err.None? ==> |r.value| == |input|
  {
    if input == [] then Returned([], None)
    else
      var before := SliceElems(elem, input[..|input| - 1]);
      if before.err.Some? then before
      else
        var x := SetWithProperType(elem, input[|input| - 1], Zero(elem));
        if x.1.Some? then Returned(before.value, x.1) else Returned(before.value + [x.0], None)
  }

  /** A slice of strings receives every value, in order. */
  lemma {:induction false} StringSliceTakesAll(input: seq<GoString>)
    ensures SliceElems(StringKind, input).err.None?
    ensures var r := SliceElems(StringKind, input).value;
      |r| == |input| && forall j | 0 <= j < |input| :: r[j] == StringVal(input[j])
    decreases |input|
  {
    if input != [] {
      var n := |input| - 1;
      StringSliceTakesAll(input[..n]);
      var r := SliceElems(StringKind, input).value;
      assert r == SliceElems(StringKind, input[..n]).value + [StringVal(input[n])];
      forall j | 0 <= j < n ensures r[j] == StringVal(input[j]) {
        assert input[..n][j] == input[j];
      }
    }
  }

  /** Whether `s` fails to parse as a value of kind `elem`. */
  predicate Unparsable(elem: Kind, s: GoString)
  {
    SetWithProperType(elem, s, Zero(elem)).1.Some?
  }

  /** A slice fails exactly when one of its values fails to parse. */
  lemma {:induction false} SliceElemsFails(elem: Kind, input: seq<GoString>)
    ensures SliceElems(elem, input).err.Some? <==>
      exists j | 0 <= j < |input| :: Unparsable(elem, input[j])
    decreases |input|
  {
    if input != [] {
      var n := |input| - 1;
      SliceElemsFails(elem, input[..n]);
      assert forall j | 0 <= j < n :: input[..n][j] == input[j];
      assert SliceElems(elem, input).err.Some? <==>
        SliceElems(elem, input[..n]).err.Some? || Unparsable(elem, input[n]);
    }
  }

  /** What binding does to one field holding `cur`: an unsettable or
      untagged field, or one whose name is not found, is left as it was;
      a slice field receives all the values, another field the first. */
  function FieldOutcome(f: FieldSpec, cur: Value, data: Data, order: seq<GoString>, tag: GoString): (Value, Option<Error>)
    requires forall k | k in order :: k in data
    requires forall k | k in data :: |data[k]| > 0
  {
    var name := if tag in f.tags then f.tags[tag] else [];
    if !f.settable || name == [] then (cur, None)
    else
      match Lookup(data, order, name)
      case None => (cur, None)
      case Some(input) =>
        if f.kind.SliceKind? && |input| > 0 then
          var e := SliceElems(f.kind.elem, input);
          if e.err.Some? then (cur, e.err) else (SliceVal(e.value), None)
        else SetWithProperType(f.kind, input[0], cur)
  }

  /** A string field takes only the first of several values; a field
      whose name is absent keeps its value. */
  lemma ScalarTakesFirst(f: FieldSpec, cur: Value, data: Data, order: seq<GoString>, tag: GoString)
    requires forall k | k in order :: k in data
    requires forall k | k in data :: |data[k]| > 0
    requires f.settable && tag in f.tags && f.tags[tag] != []
    ensures var name := f.tags[tag];
      && (f.kind == StringKind && name in data ==> FieldOutcome(f, cur, data, order, tag) == (StringVal(data[name][0]), None))
      && (Lookup(data, order, name).None? ==> FieldOutcome(f, cur, data, order, tag) == (cur, None))
  {
  }

  /** The field values after binding fields 0..n-1 of a struct in order,
      and the error that stopped it: each field takes its outcome, and
      after an error no later field is touched. */
  function Bound(fs: seq<FieldSpec>, vals: seq<Value>, data: Data, order: seq<GoString>, tag: GoString, n: nat): (r: (seq<Value>, Option<Error>))
    requires n <= |fs| == |vals|
    requires forall k | k in order :: k in data
    requires forall k | k in data :: |data[k]| > 0
    ensures |r.0| == |vals|
    ensures forall i | n <= i < |vals| :: r.0[i] == vals[i]
  {
    if n == 0 then (vals, None)
    else
      var before := Bound(fs, vals, data, order, tag, n - 1);
      if before.1.Some? then before
      else
        var x := FieldOutcome(fs[n - 1], vals[n - 1], data, order, tag);
        (before.0[n - 1 := x.0], x.1)
  }

  /** The fields 0..e-1 of `r` hold their outcomes, each without error. */
  predicate Took(fs: seq<FieldSpec>, vals: seq<Value>, data: Data, order: seq<GoString>, tag: GoString, r: seq<Value>, e: nat)
    requires e <= |fs| == |vals| == |r|
    requires forall k | k in order :: k in data
    requires forall k | k in data :: |data[k]| > 0
  {
    forall i | 0 <= i < e :: r[i] == FieldOutcome(fs[i], vals[i], data, order, tag).0
                             && FieldOutcome(fs[i], vals[i], data, order, tag).1.None?
  }

  /** Binding stops at the first field that fails: the fields before it
      hold their outcomes, and it and every later field keep their values.
      Without an error every field holds its outcome. */
  lemma {:induction false} BoundFields(fs: seq<FieldSpec>, vals: seq<Value>, data: Data, order: seq<GoString>, tag: GoString, n: nat)
    requires n <= |fs| == |vals|
    requires forall k | k in order :: k in data
    requires forall k | k in data :: |data[k]| > 0
    ensures var r := Bound(fs, vals, data, order, tag, n);
      && (r.1.None? ==> Took(fs, vals, data, order, tag, r.0, n))
      && (r.1.Some? ==> exists e | 0 <= e < n ::
           && r.1 == FieldOutcome(fs[e], vals[e], data, order, tag).1
           && Took(fs, vals, data, order, tag, r.0, e)
           && r.0[e..] == vals[e..])
    decreases n
  {
    if n > 0 {
      BoundFields(fs, vals, data, order, tag, n - 1);
      var before := Bound(fs, vals, data, order, tag, n - 1);
      var r := Bound(fs, vals, data, order, tag, n);
      if before.1.None? {
        var x := FieldOutcome(fs[n - 1], vals[n - 1], data, order, tag);
        assert r == (before.0[n - 1 := x.0], x.1);
        if x.1.Some? {
          FieldKeepsOnError(fs[n - 1], vals[n - 1], data, order, tag);
          assert r.0 == before.0;
          assert r.0[n - 1..] == vals[n - 1..];
          assert Took(fs, vals, data, order, tag, r.0, n - 1);
        } else {
          assert Took(fs, vals, data, order, tag, r.0, n);
        }
      } else {
        assert r == before;
      }
    }
  }

  /** After an error no later field changes the outcome. */
  lemma {:induction false} BoundStops(fs: seq<FieldSpec>, vals: seq<Value>, data: Data, order: seq<GoString>, tag: GoString, j: nat)
    requires j <= |fs| == |vals|
    requires forall k | k in order :: k in data
    requires forall k | k in data :: |data[k]| > 0
    requires Bound(fs, vals, data, order, tag, j).1.Some?
    ensures Bound(fs, vals, data, order, tag, |fs|) == Bound(fs, vals, data, order, tag, j)
    decreases |fs| - j
  {
    if j < |fs| {
      BoundStops(fs, vals, data, order, tag, j + 1);
    }
  }

  /** A field that fails keeps its value. */
  lemma FieldKeepsOnError(f: FieldSpec, cur: Value, data: Data, order: seq<GoString>, tag: GoString)
    requires forall k | k in order :: k in data
    requires forall k | k in data :: |data[k]| > 0
    ensures var x := FieldOutcome(f, cur, data, order, tag); x.1.Some? ==> x.0 == cur
  {
    var name := if tag in f.tags then f.tags[tag] else [];
    if f.settable && name != [] && Lookup(data, order, name).Some? {
      var input := Lookup(data, order, name).value;
      if !(f.kind.SliceKind? && |input| > 0) {
        ErrorKeepsField(f.kind, input[0], cur);
      }
    }
  }

  /** Each key bound to its first value. */
  function FirstValues(data: Data): (r: map<GoString, GoString>)
    requires forall k | k in data :: |data[k]| > 0
    ensures r.Keys == data.Keys && forall k | k in data :: r[k] == data[k][0]
  {
    map k | k in data :: data[k][0]
  }

  /** The value a destination points to, changed in place. */
  class Dest {
    const shape: Shape
    /** The entries of a map destination. */
    var entries: map<GoString, GoString>
    /** The field values of a struct destination. */
    var values: seq<Value>

    constructor (shape: Shape, entries: map<GoString, GoString>, values: seq<Value>)
      requires shape.StructDest? ==> |values| == |shape.fields|
      ensures this.shape == shape && this.entries == entries && this.values == values
    {
      this.shape := shape;
      this.entries := entries;
      this.values := values;
    }

    predicate Valid()
      reads this
    {
      shape.StructDest? ==> |values| == |shape.fields|
    }
  }

  /** `bindData(destination, data, tag)`. A nil destination or empty data
      binds nothing. A map receives the first value of every key. Another
      non-struct is left alone, with an error unless the tag is "param",
      "query" or "header". A struct has its fields bound in order, up to
      the first error. */
  method BindData(dest: Dest, data: Data, order: seq<GoString>, tag: GoString) returns (err: Option<Error>)
    requires dest.Valid()
    requires forall k | k in order :: k in data
    requires forall k | k in data :: k in order
    requires forall k | k in data :: |data[k]| > 0
    modifies dest
    ensures dest.Valid()
    ensures dest.shape.NilDest? || |data| == 0 ==>
      err == None && dest.entries == old(dest.entries) && dest.values == old(dest.values)
    ensures !dest.shape.NilDest? && |data| > 0 ==>
      match dest.shape
      case MapDest =>
        err == None && dest.entries == old(dest.entries) + FirstValues(data) && dest.values == old(dest.values)
      case OtherDest =>
        && err == (if tag in {"param", "query", "header"} then None else Some(ErrNotStruct))
        && dest.entries == old(dest.entries) && dest.values == old(dest.values)
      case StructDest(fs) =>
        (dest.values, err) == Bound(fs, old(dest.values), data, order, tag, |fs|) && dest.entries == old(dest.entries)
      case NilDest => true
  {
    if dest.shape.NilDest? || |data| == 0 {
      return None;
    }
    match dest.shape
    case MapDest =>
      BindMap(dest, data);
      return None;
    case OtherDest =>
      if tag == "param" || tag == "query" || tag == "header" {
        return None;
      }
      return Some(ErrNotStruct);
    case StructDest(fs) =>
      err := BindStruct(dest, fs, data, order, tag);
  }

  /** The loop of bindData over the keys of the data for a map
      destination; each key is met once, so their order does not matter. */
  method BindMap(dest: Dest, data: Data)
    requires forall k | k in data :: |data[k]| > 0
    modifies dest
    ensures dest.entries == old(dest.entries) + FirstValues(data) && dest.values == old(dest.values)
  {
    var keys := data.Keys;
    while keys != {}
      invariant keys <= data.Keys && dest.values == old(dest.values)
      invariant dest.entries == old(dest.entries) + map k | k in data && k !in keys :: data[k][0]
      decreases keys
    {
      var k :| k in keys;
      dest.entries := dest.entries[k := data[k][0]];
      keys := keys - {k};
    }
  }

  /** The loop of bindData over the fields of a struct destination. */
  method BindStruct(dest: Dest, fs: seq<FieldSpec>, data: Data, order: seq<GoString>, tag: GoString) returns (err: Option<Error>)
    requires |dest.values| == |fs|
    requires forall k | k in order :: k in data
    requires forall k | k in data :: |data[k]| > 0
    modifies dest
    ensures (dest.values, err) == Bound(fs, old(dest.values), data, order, tag, |fs|) && dest.entries == old(dest.entries)
  {
    ghost var vals := dest.values;
    var i := 0;
    while i < |fs|
      invariant 0 <= i <= |fs| && dest.entries == old(dest.entries)
      invariant Bound(fs, vals, data, order, tag, i) == (dest.values, None)
    {
      var x := BindField(fs[i], dest.values[i], data, order, tag);
      assert dest.values[i] == vals[i];
      if x.1.Some? {
        FieldKeepsOnError(fs[i], vals[i], data, order, tag);
        assert dest.values[i := x.0] == dest.values;
        BoundStops(fs, vals, data, order, tag, i + 1);
        return x.1;
      }
      dest.values := dest.values[i := x.0];
      i := i + 1;
    }
    err := None;
  }

  /** The body of the field loop: the field's name under the tag, the
      search for its values, and the setting of the field. */
  method BindField(f: FieldSpec, cur: Value, data: Data, order: seq<GoString>, tag: GoString) returns (x: (Value, Option<Error>))
    requires forall k | k in order :: k in data
    requires forall k | k in data :: |data[k]| > 0
    ensures x == FieldOutcome(f, cur, data, order, tag)
  {
    var name: GoString := if tag in f.tags then f.tags[tag] else [];
    if !f.settable || name == [] {
      return (cur, None);
    }
    var input: seq<GoString> := [];
    var found := false;
    if name in data {
      input, found := data[name], true;
    } else {
      var k := FindFold(order, name);
      if k.Some? {
        input, found := data[k.value], true;
      }
    }
    if !found {
      return (cur, None);
    }
    x := SetField(f.kind, input, cur);
  }

  /** The body of the field loop once the values are found: a slice field
      with values is built element by element, another field takes the
      first value. */
  method SetField(k: Kind, input: seq<GoString>, cur: Value) returns (x: (Value, Option<Error>))
    requires |input| > 0
    ensures x == if k.SliceKind? then
        (var e := SliceElems(k.elem, input); if e.err.Some? then (cur, e.err) else (SliceVal(e.value), None))
      else SetWithProperType(k, input[0], cur)
  {
    if k.SliceKind? {
      var elems: seq<Value> := [];
      var j := 0;
      while j < |input|
        invariant 0 <= j <= |input|
        invariant SliceElems(k.elem, input[..j]) == Returned(elems, None)
      {
        assert input[..j + 1][..j] == input[..j];
        var y := SetWithProperType(k.elem, input[j], Zero(k.elem));
        if y.1.Some? {
          SliceStops(k.elem, input, j + 1);
          return (cur, y.1);
        }
        elems := elems + [y.0];
        j := j + 1;
      }
      assert input[..|input|] == input;
      return (SliceVal(elems), None);
    }
    return SetWithProperType(k, input[0], cur);
  }

  /** Once an element fails, the slice fails with that error. */
  lemma {:induction false} SliceStops(elem: Kind, input: seq<GoString>, j: nat)
    requires j <= |input| && SliceElems(elem, input[..j]).err.Some?
    ensures SliceElems(elem, input) == SliceElems(elem, input[..j])
    decreases |input| - j
  {
    if j < |input| {
      assert input[..j + 1][..j] == input[..j];
      SliceStops(elem, input, j + 1);
    } else {
      assert input[..j] == input;
    }
  }
}
