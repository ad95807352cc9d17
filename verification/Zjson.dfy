/** The zjson codec: values are written as nested lists of strings beside a type that is inferred from
    the first element of each list, and read back under that type. */
module Zjson {
  import opened Basics

  /** The Python values that are modelled; a dict keeps its insertion order. */
  datatype PyVal =
    | PNone
    | PBool(b: bool)
    | PInt(n: int)
    | PStr(s: string)
    | PList(elems: seq<PyVal>)
    | PDict(fields: seq<Field>)

  datatype Field = Field(name: string, value: PyVal)

  /** Types on the wire. A record without fields has no field list at all. */
  datatype ZType =
    | Prim(name: string)
    | Rec(fields: FieldList, id: nat)
    | Arr(elem: ZType, id: nat)
    | Ref(id: nat)

  datatype FieldList = NoFields | Fields(list: seq<TField>)

  datatype TField = TField(name: string, typ: ZType)

  /** Values on the wire. */
  datatype Enc = ENull | EStr(s: string) | EList(items: seq<Enc>)

  datatype Msg = Msg(typ: ZType, value: Enc)

  /** A Python computation that may raise. */
  datatype Result<T> = Ok(value: T) | Raise

  // ---------------------------------------------------------------- decimal integers

  function Digit(d: nat): char
    requires d < 10
  {
    (48 + d) as char
  }

  predicate IsDigit(c: char) {
    '0' <= c <= '9'
  }

  function DigitsOf(n: nat): string {
    if n < 10 then [Digit(n)] else DigitsOf(n / 10) + [Digit(n % 10)]
  }

  function ToString(n: int): string {
    if n < 0 then "-" + DigitsOf(-n) else DigitsOf(n)
  }

  /** Digits, with single underscores between them. */
  function ParseNat(s: string): Option<int>
    decreases |s|
  {
    if s == [] || !IsDigit(s[|s| - 1]) then None
    else
      var d := s[|s| - 1] as int - 48;
      if |s| == 1 then Some(d)
      else
        var front := ParseNat(if s[|s| - 2] == '_' then s[..|s| - 2] else s[..|s| - 1]);
        if front.None? then None else Some(10 * front.value + d)
  }

  predicate IsSpace(c: char) {
    c == ' ' || 9 <= c as int <= 13 || 28 <= c as int <= 31
  }

  function Strip(s: string): string {
    if s != [] && IsSpace(s[0]) then Strip(s[1..])
    else if s != [] && IsSpace(s[|s| - 1]) then Strip(s[..|s| - 1])
    else s
  }

  /** What `int` makes of a string: spaces around, one sign, digits. */
  function ParseInt(s: string): Option<int> {
    var t := Strip(s);
    if t != [] && (t[0] == '-' || t[0] == '+') then
      var n := ParseNat(t[1..]);
      if n.None? then None else Some(if t[0] == '-' then -n.value else n.value)
    else ParseNat(t)
  }

  lemma {:induction false} ParseDigits(n: nat)
    ensures ParseNat(DigitsOf(n)) == Some(n)
    ensures DigitsOf(n) != [] && IsDigit(DigitsOf(n)[0]) && IsDigit(DigitsOf(n)[|DigitsOf(n)| - 1])
  {
    if n >= 10 {
      ParseDigits(n / 10);
      var front := DigitsOf(n / 10);
      assert DigitsOf(n)[..|DigitsOf(n)| - 1] == front;
      assert DigitsOf(n)[|DigitsOf(n)| - 2] == front[|front| - 1];
    }
  }

  lemma IntRoundTrip(n: int)
    ensures ParseInt(ToString(n)) == Some(n)
  {
    ParseDigits(if n < 0 then -n else n);
    if n < 0 {
      assert ToString(n)[1..] == DigitsOf(-n);
    }
  }

  // ---------------------------------------------------------------- encoding

  /** The type of a value and the counter afterwards; an identifier is drawn after those of the parts. */
  function TypeOf(ctr: nat, v: PyVal): (ZType, nat)
    decreases v
  {
    match v
    case PNone => (Prim("null"), ctr)
    case PBool(_) => (Prim("bool"), ctr)
    case PInt(_) => (Prim("int64"), ctr)
    case PStr(_) => (Prim("string"), ctr)
    case PList(elems) =>
      if elems == [] then (Arr(Prim("null"), ctr + 1), ctr + 1)
      else
        var (t, c) := TypeOf(ctr, elems[0]);
        (Arr(t, c + 1), c + 1)
    case PDict(fields) =>
      if fields == [] then (Rec(NoFields, ctr + 1), ctr + 1)
      else
        var (ts, c) := FieldTypes(ctr, fields, |fields|, v);
        (Rec(Fields(ts), c + 1), c + 1)
  }

  /** The types of the first `k` fields of `whole`. */
  function FieldTypes(ctr: nat, fields: seq<Field>, k: nat, whole: PyVal): (r: (seq<TField>, nat))
    requires k <= |fields| && whole == PDict(fields)
    ensures |r.0| == k
    decreases whole, k
  {
    if k == 0 then ([], ctr)
    else
      var (ts, c) := FieldTypes(ctr, fields, k - 1, whole);
      var (t, d) := TypeOf(c, fields[k - 1].value);
      (ts + [TField(fields[k - 1].name, t)], d)
  }

  function ValueOf(v: PyVal): Enc {
    match v
    case PNone => ENull
    case PBool(b) => EStr(if b then "true" else "false")
    case PInt(n) => EStr(ToString(n))
    case PStr(s) => EStr(s)
    case PList(elems) => EList(seq(|elems|, i requires 0 <= i < |elems| => ValueOf(elems[i])))
    case PDict(fields) => EList(seq(|fields|, i requires 0 <= i < |fields| => ValueOf(fields[i].value)))
  }

  // ---------------------------------------------------------------- decoding

  /** Resolves references and registers types by identifier; a record without fields raises. */
  function DecodeType(types: map<nat, ZType>, t: ZType): Result<(map<nat, ZType>, ZType)>
    decreases t
  {
    match t
    case Ref(id) => if id in types then Ok((types, types[id])) else Raise
    case Prim(_) => Ok((types, t))
    case Arr(elem, id) =>
      var r := DecodeType(types, elem);
      if r.Raise? then Raise else Ok((r.value.0[id := Arr(r.value.1, id)], Arr(r.value.1, id)))
    case Rec(fields, id) =>
      if fields.NoFields? then Raise
      else
        var r := DecodeFields(types, fields.list, |fields.list|, t);
        if r.Raise? then Raise
        else Ok((r.value.0[id := Rec(Fields(r.value.1), id)], Rec(Fields(r.value.1), id)))
  }

  function DecodeFields(types: map<nat, ZType>, fields: seq<TField>, k: nat, whole: ZType): Result<(map<nat, ZType>, seq<TField>)>
    requires k <= |fields| && whole.Rec? && whole.fields == Fields(fields)
    decreases whole, k
  {
    if k == 0 then Ok((types, []))
    else
      var front := DecodeFields(types, fields, k - 1, whole);
      if front.Raise? then Raise
      else
        var r := DecodeType(front.value.0, fields[k - 1].typ);
        if r.Raise? then Raise else Ok((r.value.0, front.value.1 + [TField(fields[k - 1].name, r.value.1)]))
  }

  /** What a Python iteration over the wire value gives: a string yields its characters. */
  function Items(e: Enc): seq<Enc> {
    match e
    case ENull => []
    case EStr(s) => seq(|s|, i requires 0 <= i < |s| => EStr([s[i]]))
    case EList(items) => items
  }

  /** A wire value taken as it is. */
  function AsIs(e: Enc): PyVal {
    match e
    case ENull => PNone
    case EStr(s) => PStr(s)
    case EList(items) => PList(seq(|items|, i requires 0 <= i < |items| => AsIs(items[i])))
  }

  function Min(a: nat, b: nat): nat {
    if a < b then a else b
  }

  function DecodeValue(t: ZType, e: Enc): Result<PyVal>
    decreases t, 0
  {
    if e == ENull then Ok(PNone)
    else
      match t
      case Ref(_) => Raise
      case Prim(name) =>
        if name == "int64" then
          if e.EStr? && ParseInt(e.s).Some? then Ok(PInt(ParseInt(e.s).value)) else Raise
        else if name == "bool" then
          if e.EStr? then Ok(PBool(e.s == "T" || e.s == "true")) else Raise
        else if name == "string" then Ok(AsIs(e))
        else if name == "null" then Ok(PNone)
        else Raise
      case Arr(elem, _) =>
        var vs := DecodeElems(elem, Items(e), |Items(e)|);
        if vs.Raise? then Raise else Ok(PList(vs.value))
      case Rec(fields, _) =>
        if fields.NoFields? then Raise
        else
          var vs := DecodeRecord(t, fields.list, Items(e), Min(|fields.list|, |Items(e)|));
          if vs.Raise? then Raise else Ok(PDict(vs.value))
  }

  function DecodeElems(t: ZType, items: seq<Enc>, k: nat): Result<seq<PyVal>>
    requires k <= |items|
    decreases t, 1, k
  {
    if k == 0 then Ok([])
    else
      var front := DecodeElems(t, items, k - 1);
      var last := DecodeValue(t, items[k - 1]);
      if front.Raise? || last.Raise? then Raise else Ok(front.value + [last.value])
  }

  /** Pairs types and values as long as both last. */
  function DecodeRecord(whole: ZType, fields: seq<TField>, items: seq<Enc>, k: nat): Result<seq<Field>>
    requires k <= |fields| && k <= |items| && whole.Rec? && whole.fields == Fields(fields)
    decreases whole, 0, k
  {
    if k == 0 then Ok([])
    else
      var front := DecodeRecord(whole, fields, items, k - 1);
      var last := DecodeValue(fields[k - 1].typ, items[k - 1]);
      if front.Raise? || last.Raise? then Raise else Ok(front.value + [Field(fields[k - 1].name, last.value)])
  }

  // ---------------------------------------------------------------- which values survive

  /** Values that a wire string or list stands for as it is. */
  predicate Raw(v: PyVal) {
    match v
    case PNone => true
    case PStr(_) => true
    case PList(elems) => forall i :: 0 <= i < |elems| ==> Raw(elems[i])
    case _ => false
  }

  /** `v` fits the type inferred from `w`: nulls fit everywhere; a later record may stop early but must
      follow the field names in order; a list is held to its first element. */
  predicate Like(w: PyVal, v: PyVal)
    decreases w
  {
    match w
    case PNone => v.PNone?
    case PBool(_) => v.PNone? || v.PBool?
    case PInt(_) => v.PNone? || v.PInt?
    case PStr(_) => Raw(v)
    case PList(elems) =>
      v.PNone? || (v.PList? && forall i :: 0 <= i < |v.elems| ==>
                     if elems == [] then v.elems[i].PNone? else Like(elems[0], v.elems[i]))
    case PDict(fields) =>
      v.PNone? || (v.PDict? && |v.fields| <= |fields| && forall i :: 0 <= i < |v.fields| ==>
                     v.fields[i].name == fields[i].name && Like(fields[i].value, v.fields[i].value))
  }

  /** No empty dict where a type is inferred. */
  predicate Typable(w: PyVal) {
    match w
    case PList(elems) => elems == [] || Typable(elems[0])
    case PDict(fields) => fields != [] && forall i :: 0 <= i < |fields| ==> Typable(fields[i].value)
    case _ => true
  }

  /** The exact condition for one object of a stream. */
  predicate RoundTrips(v: PyVal) {
    Typable(v) && Like(v, v)
  }

  lemma {:induction false} AsIsIff(v: PyVal)
    ensures AsIs(ValueOf(v)) == v <==> Raw(v)
  {
    match v
    case PList(elems) =>
      forall i | 0 <= i < |elems| ensures AsIs(ValueOf(elems[i])) == elems[i] <==> Raw(elems[i]) {
        AsIsIff(elems[i]);
      }
      var back := AsIs(ValueOf(v));
      assert |back.elems| == |elems| && forall i :: 0 <= i < |elems| ==> back.elems[i] == AsIs(ValueOf(elems[i]));
      if Raw(v) {
        assert back.elems == elems;
      }
    case _ =>
  }

  lemma {:induction false} ElemsDecode(t: ZType, items: seq<Enc>, k: nat, vs: seq<PyVal>)
    requires k == |vs| <= |items|
    ensures DecodeElems(t, items, k) == Ok(vs) <==> forall i :: 0 <= i < k ==> DecodeValue(t, items[i]) == Ok(vs[i])
    ensures DecodeElems(t, items, k).Ok? ==> |DecodeElems(t, items, k).value| == k
  {
    if k > 0 {
      var front := vs[..k - 1];
      ElemsDecode(t, items, k - 1, front);
      assert vs == front + [vs[k - 1]];
    }
  }

  lemma {:induction false} RecordDecodes(whole: ZType, fields: seq<TField>, items: seq<Enc>, k: nat, fs: seq<Field>)
    requires k == |fs| <= |fields| && k <= |items| && whole.Rec? && whole.fields == Fields(fields)
    ensures DecodeRecord(whole, fields, items, k) == Ok(fs) <==>
            forall i :: 0 <= i < k ==> fs[i].name == fields[i].name && DecodeValue(fields[i].typ, items[i]) == Ok(fs[i].value)
    ensures DecodeRecord(whole, fields, items, k).Ok? ==> |DecodeRecord(whole, fields, items, k).value| == k
  {
    if k > 0 {
      var front := fs[..k - 1];
      RecordDecodes(whole, fields, items, k - 1, front);
      assert fs == front + [fs[k - 1]];
    }
  }

  lemma {:induction false} FieldTypeAt(ctr: nat, fields: seq<Field>, k: nat, whole: PyVal, i: nat) returns (c: nat)
    requires i < k <= |fields| && whole == PDict(fields)
    ensures FieldTypes(ctr, fields, k, whole).0[i] == TField(fields[i].name, TypeOf(c, fields[i].value).0)
  {
    if i == k - 1 {
      c := FieldTypes(ctr, fields, k - 1, whole).1;
    } else {
      c := FieldTypeAt(ctr, fields, k - 1, whole, i);
    }
  }

  /** Under the type inferred from `w`, the wire form of `v` is read back as `v` if and only if `v` fits. */
  lemma {:induction false} DecodesIff(ctr: nat, w: PyVal, v: PyVal)
    requires Typable(w)
    ensures DecodeValue(TypeOf(ctr, w).0, ValueOf(v)) == Ok(v) <==> Like(w, v)
    decreases w
  {
    match w
    case PNone =>
    case PBool(_) =>
    case PInt(_) =>
      if v.PInt? {
        IntRoundTrip(v.n);
      }
    case PStr(_) => AsIsIff(v);
    case PList(elems) => ListDecodesIff(ctr, w, v);
    case PDict(fields) => DictDecodesIff(ctr, w, v);
  }

  lemma {:induction false} ListDecodesIff(ctr: nat, w: PyVal, v: PyVal)
    requires Typable(w) && w.PList?
    ensures DecodeValue(TypeOf(ctr, w).0, ValueOf(v)) == Ok(v) <==> Like(w, v)
    decreases w, 0
  {
    var t := TypeOf(ctr, w).0;
    if v.PList? {
      var items := ValueOf(v).items;
      ElemsDecode(t.elem, items, |items|, v.elems);
      forall i | 0 <= i < |v.elems|
        ensures DecodeValue(t.elem, items[i]) == Ok(v.elems[i]) <==>
                if w.elems == [] then v.elems[i].PNone? else Like(w.elems[0], v.elems[i])
      {
        if w.elems != [] {
          DecodesIff(ctr, w.elems[0], v.elems[i]);
        }
      }
    }
  }

  lemma {:induction false} DictDecodesIff(ctr: nat, w: PyVal, v: PyVal)
    requires Typable(w) && w.PDict?
    ensures DecodeValue(TypeOf(ctr, w).0, ValueOf(v)) == Ok(v) <==> Like(w, v)
    decreases w, 0
  {
    var t := TypeOf(ctr, w).0;
    if v.PDict? {
      var items, fs := ValueOf(v).items, t.fields.list;
      var k := Min(|fs|, |items|);
      RecordDecodes(t, fs, items, k, v.fields[..k]);
      forall i | 0 <= i < k
        ensures fs[i].name == w.fields[i].name
        ensures DecodeValue(fs[i].typ, items[i]) == Ok(v.fields[i].value) <==> Like(w.fields[i].value, v.fields[i].value)
      {
        var c := FieldTypeAt(ctr, w.fields, |w.fields|, w, i);
        DecodesIff(c, w.fields[i].value, v.fields[i].value);
      }
      assert |v.fields| <= |fs| ==> v.fields[..k] == v.fields;
    }
  }

  /** Reading the inferred type itself works if and only if no empty dict took part, and gives it back. */
  lemma {:induction false} TypeDecodesIff(types: map<nat, ZType>, ctr: nat, w: PyVal)
    ensures var r := DecodeType(types, TypeOf(ctr, w).0);
            (r.Ok? <==> Typable(w)) && (r.Ok? ==> r.value.1 == TypeOf(ctr, w).0)
    decreases w
  {
    match w
    case PList(elems) =>
      if elems != [] {
        TypeDecodesIff(types, ctr, elems[0]);
      }
    case PDict(fields) =>
      if fields != [] {
        FieldsDecodeIff(types, ctr, w, |fields|);
      }
    case _ =>
  }

  lemma {:induction false} FieldsDecodeIff(types: map<nat, ZType>, ctr: nat, w: PyVal, k: nat)
    requires w.PDict? && w.fields != [] && k <= |w.fields|
    ensures var t := TypeOf(ctr, w).0;
            var r := DecodeFields(types, t.fields.list, k, t);
            && (r.Ok? <==> forall i :: 0 <= i < k ==> Typable(w.fields[i].value))
            && (r.Ok? ==> r.value.1 == t.fields.list[..k])
    decreases w, 0, k
  {
    var t := TypeOf(ctr, w).0;
    if k > 0 {
      FieldsDecodeIff(types, ctr, w, k - 1);
      var front := DecodeFields(types, t.fields.list, k - 1, t);
      var c := FieldTypeAt(ctr, w.fields, |w.fields|, w, k - 1);
      if front.Ok? {
        TypeDecodesIff(front.value.0, c, w.fields[k - 1].value);
        assert t.fields.list[..k] == t.fields.list[..k - 1] + [t.fields.list[k - 1]];
      }
    }
  }

  // ---------------------------------------------------------------- streams

  const FIRST := 29

  /** One message per object; one counter for the whole stream. */
  function EncodeAll(ctr: nat, objs: seq<PyVal>): (seq<Msg>, nat) {
    if objs == [] then ([], ctr)
    else
      var (front, c) := EncodeAll(ctr, objs[..|objs| - 1]);
      var (t, d) := TypeOf(c, objs[|objs| - 1]);
      (front + [Msg(t, ValueOf(objs[|objs| - 1]))], d)
  }

  /** What a reader gets before the stream ends or raises. */
  datatype Decoded = Decoded(objs: seq<PyVal>, types: map<nat, ZType>, raised: bool)

  function DecodeAll(msgs: seq<Msg>): Decoded {
    if msgs == [] then Decoded([], map[], false)
    else
      var st, msg := DecodeAll(msgs[..|msgs| - 1]), msgs[|msgs| - 1];
      if st.raised then st else DecodeOne(st, msg)
  }

  function DecodeOne(st: Decoded, msg: Msg): Decoded {
    var t := DecodeType(st.types, msg.typ);
    if t.Raise? then st.(raised := true)
    else
      var v := DecodeValue(t.value.1, msg.value);
      if v.Raise? then st.(types := t.value.0, raised := true)
      else Decoded(st.objs + [v.value], t.value.0, false)
  }

  lemma OneRoundTripsIff(st: Decoded, ctr: nat, v: PyVal)
    ensures var r := DecodeOne(st, Msg(TypeOf(ctr, v).0, ValueOf(v)));
            && (!r.raised && r.objs == st.objs + [v] <==> RoundTrips(v))
            && (r.objs == st.objs || exists u :: r.objs == st.objs + [u])
  {
    hide TypeOf, ValueOf, DecodeType, DecodeValue, Typable, Like;
    TypeDecodesIff(st.types, ctr, v);
    if Typable(v) {
      DecodesIff(ctr, v, v);
      var r := DecodeValue(TypeOf(ctr, v).0, ValueOf(v));
      if r.Ok? {
        assert (st.objs + [r.value])[|st.objs|] == r.value;
      }
    }
  }

  /** A stream is read back as it was written if and only if each of its objects round-trips. */
  lemma {:induction false} StreamRoundTrip(ctr: nat, objs: seq<PyVal>)
    ensures var back := DecodeAll(EncodeAll(ctr, objs).0);
            back.objs == objs && !back.raised <==> forall i :: 0 <= i < |objs| ==> RoundTrips(objs[i])
    ensures |DecodeAll(EncodeAll(ctr, objs).0).objs| <= |objs|
  {
    hide TypeOf, ValueOf, DecodeOne, RoundTrips;
    if objs != [] {
      var front, last := objs[..|objs| - 1], objs[|objs| - 1];
      StreamRoundTrip(ctr, front);
      assert objs == front + [last];
      var (msgs, c) := EncodeAll(ctr, front);
      var all := EncodeAll(ctr, objs).0;
      assert all == msgs + [Msg(TypeOf(c, last).0, ValueOf(last))];
      assert all[..|all| - 1] == msgs;
      OneRoundTripsIff(DecodeAll(msgs), c, last);
    }
  }

  /** What is lost or raises, and what is not: a lone empty dict; a null before a number; a string
      after a number; and, surviving, a second record that stops early. */
  lemma Examples()
    ensures !RoundTrips(PDict([]))
    ensures !RoundTrips(PList([PNone, PInt(1)]))
    ensures !RoundTrips(PList([PInt(1), PStr("2")]))
    ensures RoundTrips(PList([PInt(1), PNone]))
    ensures var one, two := Field("a", PInt(1)), Field("b", PStr("x"));
            RoundTrips(PList([PDict([one, two]), PDict([one]), PDict([])]))
            && !RoundTrips(PList([PDict([one]), PDict([one, two])]))
  {
    assert PList([PNone, PInt(1)]).elems[1] == PInt(1);
    assert PList([PInt(1), PStr("2")]).elems[1] == PStr("2");
    var one, two := Field("a", PInt(1)), Field("b", PStr("x"));
    assert !Like(PDict([one]), PDict([one, two]));
    assert PList([PDict([one]), PDict([one, two])]).elems[1] == PDict([one, two]);
  }

  // ---------------------------------------------------------------- type identifiers

  /** The identifiers in a type, parts before the whole. */
  function Ids(t: ZType): seq<nat>
    decreases t
  {
    match t
    case Arr(elem, id) => Ids(elem) + [id]
    case Rec(fields, id) => if fields.NoFields? then [id] else FieldIds(t, fields.list, |fields.list|) + [id]
    case _ => []
  }

  function FieldIds(whole: ZType, fields: seq<TField>, k: nat): seq<nat>
    requires k <= |fields| && whole.Rec? && whole.fields == Fields(fields)
    decreases whole, k
  {
    if k == 0 then [] else FieldIds(whole, fields, k - 1) + Ids(fields[k - 1].typ)
  }

  function StreamIds(msgs: seq<Msg>): seq<nat> {
    if msgs == [] then [] else StreamIds(msgs[..|msgs| - 1]) + Ids(msgs[|msgs| - 1].typ)
  }

  ghost predicate Counts(ids: seq<nat>, lo: nat, hi: nat) {
    lo <= hi && |ids| == hi - lo && forall i :: 0 <= i < |ids| ==> ids[i] == lo + 1 + i
  }

  lemma CountsJoin(a: seq<nat>, b: seq<nat>, lo: nat, mid: nat, hi: nat)
    requires Counts(a, lo, mid) && Counts(b, mid, hi)
    ensures Counts(a + b, lo, hi)
  {
  }

  /** In the order of completion, the identifiers of one type are consecutive; so they are distinct,
      and each is larger than all those of its parts, which come before it. */
  lemma {:induction false} IdsCount(ctr: nat, v: PyVal)
    ensures Counts(Ids(TypeOf(ctr, v).0), ctr, TypeOf(ctr, v).1)
    decreases v
  {
    match v
    case PList(elems) =>
      if elems != [] {
        IdsCount(ctr, elems[0]);
      }
    case PDict(fields) =>
      if fields != [] {
        FieldIdsCount(ctr, v, |fields|, TypeOf(ctr, v).0);
      }
    case _ =>
  }

  lemma {:induction false} FieldIdsCount(ctr: nat, v: PyVal, k: nat, t: ZType)
    requires v.PDict? && k <= |v.fields| && t.Rec? && t.fields.Fields? && |t.fields.list| == |v.fields|
    requires forall i :: 0 <= i < k ==> t.fields.list[i] == FieldTypes(ctr, v.fields, k, v).0[i]
    ensures Counts(FieldIds(t, t.fields.list, k), ctr, FieldTypes(ctr, v.fields, k, v).1)
    decreases v, 0, k
  {
    if k > 0 {
      FieldIdsCount(ctr, v, k - 1, t);
      var c := FieldTypes(ctr, v.fields, k - 1, v).1;
      IdsCount(c, v.fields[k - 1].value);
      CountsJoin(FieldIds(t, t.fields.list, k - 1), Ids(t.fields.list[k - 1].typ), ctr, c, FieldTypes(ctr, v.fields, k, v).1);
    }
  }

  /** All identifiers of a stream are distinct, starting right above the counter's first value. */
  lemma {:induction false} StreamIdsCount(ctr: nat, objs: seq<PyVal>)
    ensures Counts(StreamIds(EncodeAll(ctr, objs).0), ctr, EncodeAll(ctr, objs).1)
    ensures forall i, j :: 0 <= i < j < |StreamIds(EncodeAll(ctr, objs).0)| ==>
              StreamIds(EncodeAll(ctr, objs).0)[i] < StreamIds(EncodeAll(ctr, objs).0)[j]
  {
    if objs != [] {
      var (msgs, c) := EncodeAll(ctr, objs[..|objs| - 1]);
      StreamIdsCount(ctr, objs[..|objs| - 1]);
      IdsCount(c, objs[|objs| - 1]);
      var all := EncodeAll(ctr, objs).0;
      assert all[..|all| - 1] == msgs;
      CountsJoin(StreamIds(msgs), Ids(all[|all| - 1].typ), ctr, c, EncodeAll(ctr, objs).1);
    }
  }

  // ---------------------------------------------------------------- references to earlier types

  /** Reading a type registers no identifier but its own. */
  lemma {:induction false} OthersStay(types: map<nat, ZType>, t: ZType, id: nat)
    requires DecodeType(types, t).Ok? && id in types && id !in Ids(t)
    ensures var after := DecodeType(types, t).value.0; id in after && after[id] == types[id]
    decreases t
  {
    match t
    case Arr(elem, own) =>
      assert Ids(t) == Ids(elem) + [own];
      OthersStay(types, elem, id);
    case Rec(fields, own) => FieldsLeaveOthers(types, t, fields.list, |fields.list|, id);
    case _ =>
  }

  lemma {:induction false} FieldsLeaveOthers(types: map<nat, ZType>, t: ZType, fields: seq<TField>, k: nat, id: nat)
    requires t.Rec? && t.fields == Fields(fields) && k <= |fields| && id in types && id !in FieldIds(t, fields, k)
    requires DecodeFields(types, fields, k, t).Ok?
    ensures var after := DecodeFields(types, fields, k, t).value.0; id in after && after[id] == types[id]
    decreases t, 0, k
  {
    if k > 0 {
      assert FieldIds(t, fields, k) == FieldIds(t, fields, k - 1) + Ids(fields[k - 1].typ);
      FieldsLeaveOthers(types, t, fields, k - 1, id);
      OthersStay(DecodeFields(types, fields, k - 1, t).value.0, fields[k - 1].typ, id);
    }
  }

  /** While a stream is read, the type of each list or dict read so far is registered under its identifier,
      and stays so. */
  lemma {:induction false} TypesStayRegistered(ctr: nat, objs: seq<PyVal>, i: nat)
    requires i < |objs| && !DecodeAll(EncodeAll(ctr, objs).0).raised && (objs[i].PList? || objs[i].PDict?)
    ensures var (msgs, last) := EncodeAll(ctr, objs);
            var types := DecodeAll(msgs).types;
            |msgs| == |objs| && !msgs[i].typ.Ref? && !msgs[i].typ.Prim?
            && msgs[i].typ.id in types && types[msgs[i].typ.id] == msgs[i].typ && msgs[i].typ.id <= last
  {
    hide ValueOf, DecodeValue, Ids;
    var n := |objs| - 1;
    var (msgs, c) := EncodeAll(ctr, objs[..n]);
    var t := TypeOf(c, objs[n]).0;
    var all := EncodeAll(ctr, objs).0;
    OneMessageEach(ctr, objs[..n]);
    assert all == msgs + [Msg(t, ValueOf(objs[n]))] && all[..|all| - 1] == msgs;
    TypeDecodesIff(DecodeAll(msgs).types, c, objs[n]);
    IdsCount(c, objs[n]);
    if i < n {
      TypesStayRegistered(ctr, objs[..n], i);
      OthersStay(DecodeAll(msgs).types, t, msgs[i].typ.id);
    }
  }

  lemma {:induction false} OneMessageEach(ctr: nat, objs: seq<PyVal>)
    ensures |EncodeAll(ctr, objs).0| == |objs|
  {
    if objs != [] {
      OneMessageEach(ctr, objs[..|objs| - 1]);
    }
  }

  /** After a stream, a message may name the type of any earlier list or dict by its identifier: its value is
      read as under the full type, and so comes back as it was written if and only if it fits that object. */
  lemma ReferenceIsType(ctr: nat, objs: seq<PyVal>, i: nat, v: PyVal)
    requires i < |objs| && !DecodeAll(EncodeAll(ctr, objs).0).raised && (objs[i].PList? || objs[i].PDict?)
    ensures var msgs := EncodeAll(ctr, objs).0;
            |msgs| == |objs| && (msgs[i].typ.Arr? || msgs[i].typ.Rec?)
            && var st := DecodeAll(msgs);
               var named := DecodeOne(st, Msg(Ref(msgs[i].typ.id), ValueOf(v)));
               var full := DecodeOne(st, Msg(msgs[i].typ, ValueOf(v)));
            && named.objs == full.objs && named.raised == full.raised && named.types == st.types
            && (!named.raised && named.objs == st.objs + [v] <==> Like(objs[i], v))
  {
    hide TypeOf, ValueOf, DecodeValue, Typable, Like;
    TypesStayRegistered(ctr, objs, i);
    var c := TypeAt(ctr, objs, i);
    var msgs := EncodeAll(ctr, objs).0;
    TypeDecodesIff(DecodeAll(msgs).types, c, objs[i]);
    DecodesIff(c, objs[i], v);
    var r := DecodeValue(msgs[i].typ, ValueOf(v));
    if r.Ok? {
      assert (DecodeAll(msgs).objs + [r.value])[|DecodeAll(msgs).objs|] == r.value;
    }
  }

  /** The type of each object of a stream that is read without a raise, and that it was readable. */
  lemma {:induction false} TypeAt(ctr: nat, objs: seq<PyVal>, i: nat) returns (c: nat)
    requires i < |objs| && !DecodeAll(EncodeAll(ctr, objs).0).raised
    ensures |EncodeAll(ctr, objs).0| == |objs| && EncodeAll(ctr, objs).0[i].typ == TypeOf(c, objs[i]).0
    ensures Typable(objs[i])
  {
    hide ValueOf, DecodeValue, TypeOf, Typable, DecodeType;
    var n := |objs| - 1;
    var (msgs, d) := EncodeAll(ctr, objs[..n]);
    var all := EncodeAll(ctr, objs).0;
    OneMessageEach(ctr, objs[..n]);
    assert all == msgs + [Msg(TypeOf(d, objs[n]).0, ValueOf(objs[n]))] && all[..|all| - 1] == msgs;
    if i < n {
      c := TypeAt(ctr, objs[..n], i);
    } else {
      c := d;
      TypeDecodesIff(DecodeAll(msgs).types, c, objs[n]);
    }
  }

  /** The example that comes with the codec, on the wire. */
  lemma OnTheWire()
    ensures var watt, user := Field("watt", PStr("12")), Field("user", PDict([Field("alice", PBool(true))]));
            var text, flag := Prim("string"), Rec(Fields([TField("alice", Prim("bool"))]), 33);
            EncodeAll(FIRST, [PInt(12), PDict([]), PList([]), PDict([watt]), PDict([watt, user])]).0 ==
            [ Msg(Prim("int64"), EStr("12")),
              Msg(Rec(NoFields, 30), EList([])),
              Msg(Arr(Prim("null"), 31), EList([])),
              Msg(Rec(Fields([TField("watt", text)]), 32), EList([EStr("12")])),
              Msg(Rec(Fields([TField("watt", text), TField("user", flag)]), 34), EList([EStr("12"), EList([EStr("true")])]))
            ]
  {
    hide TypeOf, ValueOf, EncodeAll;
    var watt, user := Field("watt", PStr("12")), Field("user", PDict([Field("alice", PBool(true))]));
    var objs := [PInt(12), PDict([]), PList([]), PDict([watt]), PDict([watt, user])];
    PlainMessages();
    RecordMessages(watt, user);
    AlsoEncodes(FIRST, [], PInt(12));
    AlsoEncodes(FIRST, [PInt(12)], PDict([]));
    AlsoEncodes(FIRST, [PInt(12), PDict([])], PList([]));
    AlsoEncodes(FIRST, [PInt(12), PDict([]), PList([])], PDict([watt]));
    AlsoEncodes(FIRST, [PInt(12), PDict([]), PList([]), PDict([watt])], PDict([watt, user]));
    assert objs == [PInt(12), PDict([]), PList([]), PDict([watt])] + [PDict([watt, user])];
    assert [PInt(12), PDict([]), PList([])] + [PDict([watt])] == [PInt(12), PDict([]), PList([]), PDict([watt])];
    assert [PInt(12), PDict([])] + [PList([])] == [PInt(12), PDict([]), PList([])];
    assert [PInt(12)] + [PDict([])] == [PInt(12), PDict([])];
    assert [] + [PInt(12)] == [PInt(12)];
  }

  lemma PlainMessages()
    ensures EncodeAll(FIRST, []) == ([], FIRST)
    ensures TypeOf(FIRST, PInt(12)) == (Prim("int64"), FIRST) && ValueOf(PInt(12)) == EStr("12")
    ensures TypeOf(FIRST, PDict([])) == (Rec(NoFields, 30), 30) && ValueOf(PDict([])) == EList([])
    ensures TypeOf(30, PList([])) == (Arr(Prim("null"), 31), 31) && ValueOf(PList([])) == EList([])
  {
    assert ToString(12) == "12";
  }

  lemma RecordMessages(watt: Field, user: Field)
    requires watt == Field("watt", PStr("12")) && user == Field("user", PDict([Field("alice", PBool(true))]))
    ensures TypeOf(31, PDict([watt])) == (Rec(Fields([TField("watt", Prim("string"))]), 32), 32)
    ensures ValueOf(PDict([watt])) == EList([EStr("12")])
    ensures var flag := Rec(Fields([TField("alice", Prim("bool"))]), 33);
            TypeOf(32, PDict([watt, user])) == (Rec(Fields([TField("watt", Prim("string")), TField("user", flag)]), 34), 34)
    ensures ValueOf(PDict([watt, user])) == EList([EStr("12"), EList([EStr("true")])])
  {
    FirstType(31, [watt]);
    DictType(31, [watt]);
    FirstType(32, user.value.fields);
    DictType(32, user.value.fields);
    PairType(32, watt, user);
    assert ValueOf(user.value) == EList([EStr("true")]);
  }

  lemma AlsoEncodes(ctr: nat, objs: seq<PyVal>, v: PyVal)
    ensures var (msgs, c) := EncodeAll(ctr, objs);
            EncodeAll(ctr, objs + [v]) == (msgs + [Msg(TypeOf(c, v).0, ValueOf(v))], TypeOf(c, v).1)
  {
    assert (objs + [v])[..|objs|] == objs;
  }

  lemma PairType(ctr: nat, a: Field, b: Field)
    ensures var (s, c) := TypeOf(ctr, a.value);
            var (t, d) := TypeOf(c, b.value);
            TypeOf(ctr, PDict([a, b])) == (Rec(Fields([TField(a.name, s), TField(b.name, t)]), d + 1), d + 1)
  {
    hide TypeOf;
    var (s, c) := TypeOf(ctr, a.value);
    var (t, d) := TypeOf(c, b.value);
    FirstType(ctr, [a, b]);
    var two := [TField(a.name, s)] + [TField(b.name, t)];
    assert FieldTypes(ctr, [a, b], 2, PDict([a, b])) == (two, d);
    assert two == [TField(a.name, s), TField(b.name, t)];
    DictType(ctr, [a, b]);
  }

  lemma FirstType(ctr: nat, fields: seq<Field>)
    requires fields != []
    ensures var (s, c) := TypeOf(ctr, fields[0].value);
            FieldTypes(ctr, fields, 1, PDict(fields)) == ([TField(fields[0].name, s)], c)
  {
    hide TypeOf;
    var none: seq<TField> := [];
    assert FieldTypes(ctr, fields, 0, PDict(fields)) == (none, ctr);
    assert none + [TField(fields[0].name, TypeOf(ctr, fields[0].value).0)] == [TField(fields[0].name, TypeOf(ctr, fields[0].value).0)];
  }

  lemma DictType(ctr: nat, fields: seq<Field>)
    requires fields != []
    ensures var (ts, c) := FieldTypes(ctr, fields, |fields|, PDict(fields));
            TypeOf(ctr, PDict(fields)) == (Rec(Fields(ts), c + 1), c + 1)
  {
  }

  // ---------------------------------------------------------------- the encoder as a generator

  class Counter {
    var ctr: nat

    constructor ()
      ensures ctr == FIRST
    {
      ctr := FIRST;
    }

    method GetAndInc() returns (id: nat)
      modifies this
      ensures ctr == old(ctr) + 1 && id == ctr
    {
      ctr := ctr + 1;
      id := ctr;
    }
  }

  method EncodeType(counter: Counter, v: PyVal) returns (t: ZType)
    modifies counter
    ensures (t, counter.ctr) == TypeOf(old(counter.ctr), v)
    decreases v
  {
    match v
    case PNone => t := Prim("null");
    case PBool(_) => t := Prim("bool");
    case PInt(_) => t := Prim("int64");
    case PStr(_) => t := Prim("string");
    case PList(elems) =>
      var elem := Prim("null");
      if |elems| > 0 {
        elem := EncodeType(counter, elems[0]);
      }
      var id := counter.GetAndInc();
      t := Arr(elem, id);
    case PDict(fields) =>
      var list := NoFields;
      if |fields| > 0 {
        var ts: seq<TField> := [];
        for i := 0 to |fields|
          invariant (ts, counter.ctr) == FieldTypes(old(counter.ctr), fields, i, v)
        {
          var f := EncodeType(counter, fields[i].value);
          ts := ts + [TField(fields[i].name, f)];
        }
        list := Fields(ts);
      }
      var id := counter.GetAndInc();
      t := Rec(list, id);
  }

  method Encode(objs: seq<PyVal>) returns (msgs: seq<Msg>)
    ensures msgs == EncodeAll(FIRST, objs).0
  {
    var counter := new Counter();
    msgs := [];
    for i := 0 to |objs|
      invariant (msgs, counter.ctr) == EncodeAll(FIRST, objs[..i])
    {
      assert objs[..i + 1][..i] == objs[..i];
      var t := EncodeType(counter, objs[i]);
      msgs := msgs + [Msg(t, ValueOf(objs[i]))];
    }
    assert objs[..|objs|] == objs;
  }

  method DecodeRaw(msgs: seq<Msg>) returns (objs: seq<PyVal>, raised: bool)
    ensures objs == DecodeAll(msgs).objs && raised == DecodeAll(msgs).raised
  {
    var st := Decoded([], map[], false);
    for i := 0 to |msgs|
      invariant st == DecodeAll(msgs[..i]) && !st.raised
    {
      assert msgs[..i + 1][..i] == msgs[..i];
      st := DecodeOne(st, msgs[i]);
      if st.raised {
        DecodeStops(msgs, i + 1);
        return st.objs, true;
      }
    }
    assert msgs[..|msgs|] == msgs;
    objs, raised := st.objs, false;
  }

  lemma {:induction false} DecodeStops(msgs: seq<Msg>, i: nat)
    requires i <= |msgs| && DecodeAll(msgs[..i]).raised
    ensures DecodeAll(msgs) == DecodeAll(msgs[..i])
    decreases |msgs|
  {
    if i == |msgs| {
      assert msgs[..i] == msgs;
    } else {
      assert msgs[..|msgs| - 1][..i] == msgs[..i];
      DecodeStops(msgs[..|msgs| - 1], i);
    }
  }
}
