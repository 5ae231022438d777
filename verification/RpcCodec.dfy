/** RPC definitions, parameters and results as byte strings (ntcore_cpp.cpp), always in revision 3.0. */
module RpcCodec {
  import opened Basics
  import opened Messages
  import opened Wire
  import opened WireBytes
  import opened Encoding
  import opened Decoding

  datatype ParamDef = ParamDef(name: Bytes, defValue: Value)

  datatype ResultDef = ResultDef(name: Bytes, resultType: Type)

  datatype RpcDefinition = RpcDefinition(version: nat, name: Bytes, params: seq<ParamDef>, results: seq<ResultDef>)

  // ---------------------------------------------------------------------------------------------
  // Lists
  // ---------------------------------------------------------------------------------------------

  function EncEach<T>(enc: T -> Bytes, v: seq<T>): Bytes {
    if v == [] then [] else EncEach(enc, v[..|v| - 1]) + enc(v[|v| - 1])
  }

  function DecEach<T>(dec: Bytes -> Parse<T>, s: Bytes, n: nat): Parse<seq<T>> {
    if n == 0 then Done([], s)
    else match DecEach(dec, s, n - 1)
      case Fail => Fail
      case Done(v, rest) =>
        match dec(rest)
        case Fail => Fail
        case Done(x, rest2) => Done(v + [x], rest2)
  }

  function CutEach<T>(cut: T -> T, v: seq<T>): (r: seq<T>)
    ensures |r| == |v| && forall i :: 0 <= i < |v| ==> r[i] == cut(v[i])
  {
    seq(|v|, i requires 0 <= i < |v| => cut(v[i]))
  }

  /** Elements that are read back one by one are read back in a row. */
  lemma {:induction false} EachBack<T(!new)>(enc: T -> Bytes, dec: Bytes -> Parse<T>, cut: T -> T, v: seq<T>,
                                      rest: Bytes)
    requires forall x, tail {:trigger dec(enc(x) + tail)} | x in v :: dec(enc(x) + tail) == Done(cut(x), tail)
    ensures DecEach(dec, EncEach(enc, v) + rest, |v|) == Done(CutEach(cut, v), rest)
  {
    if v != [] {
      var init, last := v[..|v| - 1], v[|v| - 1];
      EachBack(enc, dec, cut, init, enc(last) + rest);
      Reassociate(EncEach(enc, init), enc(last), rest);
      assert dec(enc(last) + rest) == Done(cut(last), rest);
      assert CutEach(cut, v) == CutEach(cut, init) + [cut(last)];
    }
  }

  lemma {:induction false} EachFails<T>(dec: Bytes -> Parse<T>, s: Bytes, n: nat, m: nat)
    requires n <= m && DecEach(dec, s, n).Fail?
    ensures DecEach(dec, s, m).Fail?
    decreases m
  {
    if n < m {
      EachFails(dec, s, n, m - 1);
    }
  }

  lemma NextEach<T>(enc: T -> Bytes, v: seq<T>, i: nat, base: Bytes)
    requires i < |v|
    ensures base + EncEach(enc, v[..i]) + enc(v[i]) == base + EncEach(enc, v[..i + 1])
  {
    assert v[..i + 1][..i] == v[..i];
    Reassociate(base, EncEach(enc, v[..i]), enc(v[i]));
  }

  // ---------------------------------------------------------------------------------------------
  // Definitions
  // ---------------------------------------------------------------------------------------------

  function EncParam(p: ParamDef): Bytes {
    EncType(REV3, p.defValue.Type()) + (EncString(REV3, p.name) + EncValue(REV3, p.defValue))
  }

  function DecParam(s: Bytes): Parse<ParamDef> {
    match DecType(s)
    case Fail => Fail
    case Done(t, s1) =>
      match DecString(REV3, s1)
      case Fail => Fail
      case Done(name, s2) =>
        match DecValue(REV3, t, s2)
        case Fail => Fail
        case Done(v, rest) => Done(ParamDef(name, v), rest)
  }

  function CutParam(p: ParamDef): ParamDef {
    ParamDef(p.name, CutValue(REV3, p.defValue))
  }

  function EncResult(r: ResultDef): Bytes {
    EncType(REV3, r.resultType) + EncString(REV3, r.name)
  }

  function DecResult(s: Bytes): Parse<ResultDef> {
    match DecType(s)
    case Fail => Fail
    case Done(t, s1) =>
      match DecString(REV3, s1)
      case Fail => Fail
      case Done(name, rest) => Done(ResultDef(name, t), rest)
  }

  /** Lengths within the reader's range. */
  ghost predicate ShortDefinition(d: RpcDefinition) {
    && Short(REV3, d.name)
    && (forall p :: p in d.params ==> Short(REV3, p.name) && ShortValue(REV3, p.defValue))
    && (forall r :: r in d.results ==> Short(REV3, r.name))
  }

  lemma ParamBack(p: ParamDef, rest: Bytes)
    requires Short(REV3, p.name) && ShortValue(REV3, p.defValue)
    ensures DecParam(EncParam(p) + rest) == Done(CutParam(p), rest)
  {
    var t, name, value := EncType(REV3, p.defValue.Type()), EncString(REV3, p.name), EncValue(REV3, p.defValue);
    Reassociate(t, name + value, rest);
    Reassociate(name, value, rest);
    TypeBack(REV3, p.defValue.Type(), name + value + rest);
    StringBack(REV3, p.name, value + rest);
    ValueBack(REV3, p.defValue, rest);
  }

  lemma ResultBack(r: ResultDef, rest: Bytes)
    requires Short(REV3, r.name)
    ensures DecResult(EncResult(r) + rest) == Done(r, rest)
  {
    var t, name := EncType(REV3, r.resultType), EncString(REV3, r.name);
    Reassociate(t, name, rest);
    TypeBack(REV3, r.resultType, name + rest);
    StringBack(REV3, r.name, rest);
  }

  /** At most 255 elements behind their count. */
  function EncList<T>(enc: T -> Bytes, v: seq<T>): Bytes {
    [|Prefix(v, 0xff)|] + EncEach(enc, Prefix(v, 0xff))
  }

  function DecList<T>(dec: Bytes -> Parse<T>, s: Bytes): Parse<seq<T>> {
    if s == [] then Fail else DecEach(dec, s[1..], s[0])
  }

  lemma ListBack<T(!new)>(enc: T -> Bytes, dec: Bytes -> Parse<T>, cut: T -> T, v: seq<T>, rest: Bytes)
    requires forall x, tail {:trigger dec(enc(x) + tail)} | x in v :: dec(enc(x) + tail) == Done(cut(x), tail)
    ensures DecList(dec, EncList(enc, v) + rest) == Done(CutEach(cut, Prefix(v, 0xff)), rest)
  {
    var w := Prefix(v, 0xff);
    EachBack(enc, dec, cut, w, rest);
    Parts(|w|, EncEach(enc, w), rest);
  }

  function Packed(d: RpcDefinition): Bytes {
    Flag(d.version) + (EncString(REV3, d.name)
      + (EncList((p: ParamDef) => EncParam(p), d.params) + EncList((r: ResultDef) => EncResult(r), d.results)))
  }

  /** Bytes behind the definition are ignored. */
  function Unpacked(s: Bytes): Option<RpcDefinition> {
    match Dec8(s)
    case Fail => None
    case Done(version, s1) =>
      match DecString(REV3, s1)
      case Fail => None
      case Done(name, s2) => UnpackedLists(version, name, s2)
  }

  function UnpackedLists(version: nat, name: Bytes, s: Bytes): Option<RpcDefinition> {
    match DecList((t: Bytes) => DecParam(t), s)
    case Fail => None
    case Done(params, s1) =>
      match DecList((t: Bytes) => DecResult(t), s1)
      case Fail => None
      case Done(results, _) => Some(RpcDefinition(version, name, params, results))
  }

  /** A definition as it comes out again. */
  function CutDefinition(d: RpcDefinition): RpcDefinition {
    RpcDefinition(d.version % 0x100, d.name, CutEach((p: ParamDef) => CutParam(p), Prefix(d.params, 0xff)), Prefix(d.results, 0xff))
  }

  lemma ListsBack(d: RpcDefinition, version: nat, rest: Bytes)
    requires ShortDefinition(d)
    ensures
      var params := EncList((p: ParamDef) => EncParam(p), d.params);
      var results := EncList((r: ResultDef) => EncResult(r), d.results);
      UnpackedLists(version, d.name, params + (results + rest)) == Some(CutDefinition(d).(version := version))
  {
    var encP, decP, cutP := (p: ParamDef) => EncParam(p), (t: Bytes) => DecParam(t), (p: ParamDef) => CutParam(p);
    var encR, decR, same := (r: ResultDef) => EncResult(r), (t: Bytes) => DecResult(t), (r: ResultDef) => r;
    forall p, tail: Bytes | p in d.params
      ensures decP(encP(p) + tail) == Done(cutP(p), tail)
    {
      ParamBack(p, tail);
    }
    forall r, tail: Bytes | r in d.results
      ensures decR(encR(r) + tail) == Done(same(r), tail)
    {
      hide EncParam, DecParam, EncResult, DecResult, EncEach, DecEach, EncList, DecList;
      ResultBack(r, tail);
    }
    ListBack(encP, decP, cutP, d.params, EncList(encR, d.results) + rest);
    ListBack(encR, decR, same, d.results, rest);
    assert CutEach(same, Prefix(d.results, 0xff)) == Prefix(d.results, 0xff);
  }

  /** A packed definition is unpacked as it was, its lists and arrays cut to 255 elements, its version to a byte. */
  lemma DefinitionBack(d: RpcDefinition, rest: Bytes)
    requires ShortDefinition(d)
    ensures Unpacked(Packed(d) + rest) == Some(CutDefinition(d))
  {
    hide EncString, EncList, DecString, Dec8, UnpackedLists;
    var params := EncList((p: ParamDef) => EncParam(p), d.params);
    var results := EncList((r: ResultDef) => EncResult(r), d.results);
    var name := EncString(REV3, d.name);
    ListsBack(d, d.version % 0x100, rest);
    StringBack(REV3, d.name, params + (results + rest));
    Dec8Back(d.version % 0x100, name + (params + (results + rest)));
    assert Packed(d) + rest == [d.version % 0x100] + (name + (params + (results + rest))) by {
      Reassociate(Flag(d.version), name + (params + results), rest);
      Reassociate(name, params + results, rest);
      Reassociate(params, results, rest);
    }
  }

  /** It comes out as it went in exactly when nothing had to be cut. */
  lemma SameDefinition(d: RpcDefinition)
    ensures CutDefinition(d) == d <==>
      && d.version < 0x100 && |d.params| <= 0xff && |d.results| <= 0xff
      && forall i :: 0 <= i < |d.params| ==> Fits(d.params[i].defValue)
  {
    var cut := CutEach((p: ParamDef) => CutParam(p), Prefix(d.params, 0xff));
    if |d.params| <= 0xff {
      forall i | 0 <= i < |d.params|
        ensures cut[i] == d.params[i] <==> Fits(d.params[i].defValue)
      {
        SameValue(d.params[i].defValue);
      }
      assert (forall i :: 0 <= i < |d.params| ==> cut[i] == d.params[i]) <==> cut == d.params;
    }
  }

  // ---------------------------------------------------------------------------------------------
  // Values
  // ---------------------------------------------------------------------------------------------

  function PackedValues(vs: seq<Value>): Bytes {
    EncEach((v: Value) => EncValue(REV3, v), vs)
  }

  /** The values of the given types; none at all when one cannot be read. */
  function UnpackedValues(s: Bytes, types: seq<Type>): seq<Value> {
    match ReadAll(s, types) case Fail => [] case Done(vs, _) => vs
  }

  function ReadAll(s: Bytes, types: seq<Type>): Parse<seq<Value>> {
    if types == [] then Done([], s)
    else match ReadAll(s, types[..|types| - 1])
      case Fail => Fail
      case Done(vs, rest) =>
        match DecValue(REV3, types[|types| - 1], rest)
        case Fail => Fail
        case Done(v, rest2) => Done(vs + [v], rest2)
  }

  /** Packed values are unpacked as they were, arrays cut to 255 elements, when the types given are theirs. */
  lemma {:induction false} ValuesBack(vs: seq<Value>, types: seq<Type>, rest: Bytes)
    requires |types| == |vs| && forall i :: 0 <= i < |vs| ==> types[i] == vs[i].Type() && ShortValue(REV3, vs[i])
    ensures ReadAll(PackedValues(vs) + rest, types) == Done(CutEach((v: Value) => CutValue(REV3, v), vs), rest)
    ensures UnpackedValues(PackedValues(vs) + rest, types) == CutEach((v: Value) => CutValue(REV3, v), vs)
  {
    hide EncValue, DecValue, CutValue, ShortValue;
    if vs != [] {
      var n := |vs| - 1;
      ValuesBack(vs[..n], types[..n], EncValue(REV3, vs[n]) + rest);
      Reassociate(PackedValues(vs[..n]), EncValue(REV3, vs[n]), rest);
      ValueBack(REV3, vs[n], rest);
      assert CutEach((v: Value) => CutValue(REV3, v), vs)
          == CutEach((v: Value) => CutValue(REV3, v), vs[..n]) + [CutValue(REV3, vs[n])];
    }
  }

  // ---------------------------------------------------------------------------------------------
  // The bytes
  // ---------------------------------------------------------------------------------------------

  /** One after the other. */
  lemma TwoOf<T>(enc: T -> Bytes, x: T, y: T)
    ensures EncEach(enc, []) == [] && EncEach(enc, [x]) == enc(x) && EncEach(enc, [x, y]) == enc(x) + enc(y)
  {
    assert [x, y][..1] == [x] && [x][..0] == [];
    assert EncEach(enc, [x]) == [] + enc(x);
  }

  /** A count byte before the elements. */
  lemma ListBytes<T>(enc: T -> Bytes, x: T, y: T)
    ensures EncList(enc, []) == [0x00] && EncList(enc, [x]) == [0x01] + enc(x) && EncList(enc, [x, y]) == [0x02] + (enc(x) + enc(y))
  {
    TwoOf(enc, x, y);
  }

  /** A definition: version, name, the parameters by type, name and default, and the results by type and name. Names here
      are shorter than 128 bytes. */
  lemma DefinitionBytes(version: byte, name: Bytes, param: Bytes, v: Value, result: Bytes, t: Type)
    requires |name| < 0x80 && |param| < 0x80 && |result| < 0x80
    ensures Packed(RpcDefinition(version, name, [ParamDef(param, v)], [ResultDef(result, t)]))
         == [version] + (([|name|] + name) + (([0x01] + (EncType(0x0300, v.Type()) + (([|param|] + param) + EncValue(0x0300, v))))
            + ([0x01] + (EncType(0x0300, t) + ([|result|] + result)))))
    ensures Packed(RpcDefinition(version, name, [], [])) == [version] + (([|name|] + name) + [0x00, 0x00])
  {
    hide EncString, EncType, EncValue, EncList;
    var p, r := ParamDef(param, v), ResultDef(result, t);
    StringBytes(name);
    StringBytes(param);
    StringBytes(result);
    ListBytes((p: ParamDef) => EncParam(p), p, p);
    ListBytes((r: ResultDef) => EncResult(r), r, r);
    assert [0x00] + [0x00] == [0x00, 0x00];
  }

  /** Every value takes at least one byte. */
  lemma NothingLeft(t: Type)
    ensures UnpackedValues([], [t]) == UnpackedValues([0x01], [BooleanT, t]) == []
  {
    assert [t][..0] == [] && [BooleanT, t][..1] == [BooleanT] && [BooleanT][..0] == [];
    assert DecValue(REV3, t, []) == Fail;
    assert ReadAll([], []) == Done([], []) && ReadAll([0x01], []) == Done([], [0x01]);
    assert ReadAll([], [t]) == Fail;
    assert [0x01][1..] == [];
    assert ReadAll([0x01], [BooleanT]) == Done([] + [Boolean(true)], []);
  }

  /** Values stand one after the other; when one is missing, none is read. */
  lemma ValuesBytes(v: Value, w: Value)
    ensures PackedValues([]) == [] && PackedValues([v]) == EncValue(0x0300, v)
    ensures PackedValues([v, w]) == EncValue(0x0300, v) + EncValue(0x0300, w)
    ensures UnpackedValues([], [v.Type()]) == UnpackedValues([0x01], [BooleanT, v.Type()]) == []
  {
    hide EncValue;
    NothingLeft(v.Type());
    TwoOf((v: Value) => EncValue(REV3, v), v, w);
  }

  // ---------------------------------------------------------------------------------------------
  // The functions of the source
  // ---------------------------------------------------------------------------------------------

  method PackRpcDefinition(def: RpcDefinition) returns (packed: Bytes)
    ensures packed == Packed(def)
  {
    hide EncString, EncList;
    var enc := new WireEncoder(REV3);
    enc.Write8(def.version);
    enc.WriteString(def.name);
    ghost var head := enc.data;
    PackParams(enc, def.params);
    PackResults(enc, def.results);
    packed := enc.data;
    assert head == Flag(def.version) + EncString(REV3, def.name);
    Join3(Flag(def.version), EncString(REV3, def.name),
          EncList((p: ParamDef) => EncParam(p), def.params), EncList((r: ResultDef) => EncResult(r), def.results));
  }

  method PackParams(enc: WireEncoder, params: seq<ParamDef>)
    requires enc.protoRev == REV3
    modifies enc
    ensures enc.protoRev == REV3 && enc.data == old(enc.data) + EncList((p: ParamDef) => EncParam(p), params)
  {
    hide EncString, EncValue, EncType;
    var each := (p: ParamDef) => EncParam(p);
    var v := Prefix(params, 0xff);
    enc.Write8(|v|);
    ghost var base := enc.data;
    for i := 0 to |v|
      invariant enc.protoRev == REV3 && enc.data == base + EncEach(each, v[..i])
    {
      ghost var was := enc.data;
      enc.WriteType(v[i].defValue.Type());
      enc.WriteString(v[i].name);
      enc.WriteValue(v[i].defValue);
      Join3(was, EncType(REV3, v[i].defValue.Type()), EncString(REV3, v[i].name), EncValue(REV3, v[i].defValue));
      NextEach(each, v, i, base);
    }
    assert v[..|v|] == v;
    Reassociate(old(enc.data), [|v|], EncEach(each, v));
  }

  method PackResults(enc: WireEncoder, results: seq<ResultDef>)
    requires enc.protoRev == REV3
    modifies enc
    ensures enc.protoRev == REV3 && enc.data == old(enc.data) + EncList((r: ResultDef) => EncResult(r), results)
  {
    hide EncString, EncType;
    var each := (r: ResultDef) => EncResult(r);
    var v := Prefix(results, 0xff);
    enc.Write8(|v|);
    ghost var base := enc.data;
    for i := 0 to |v|
      invariant enc.protoRev == REV3 && enc.data == base + EncEach(each, v[..i])
    {
      ghost var was := enc.data;
      enc.WriteType(v[i].resultType);
      enc.WriteString(v[i].name);
      Join2(was, EncType(REV3, v[i].resultType), EncString(REV3, v[i].name));
      NextEach(each, v, i, base);
    }
    assert v[..|v|] == v;
    Reassociate(old(enc.data), [|v|], EncEach(each, v));
  }

  method UnpackRpcDefinition(packed: Bytes) returns (def: Option<RpcDefinition>)
    ensures def == Unpacked(packed)
  {
    var dec := new WireDecoder(packed, REV3);
    var ok, version := dec.Read8();
    if !ok {
      return None;
    }
    var name;
    ok, name := dec.ReadString();
    if !ok {
      return None;
    }
    var params, results;
    ok, params := UnpackParams(dec);
    if !ok {
      return None;
    }
    ok, results := UnpackResults(dec);
    if !ok {
      return None;
    }
    def := Some(RpcDefinition(version, name, params, results));
  }

  method UnpackParams(dec: WireDecoder) returns (ok: bool, params: seq<ParamDef>)
    requires !dec.streamError && dec.protoRev == REV3
    modifies dec
    ensures Gives(DecList((t: Bytes) => DecParam(t), old(dec.rest)), ok, params, dec.rest)
    ensures dec.protoRev == REV3 && (ok ==> !dec.streamError)
  {
    hide DecParam;
    var each := (t: Bytes) => DecParam(t);
    params := [];
    var size;
    ok, size := dec.Read8();
    if !ok {
      return;
    }
    ghost var start := dec.rest;
    for i := 0 to size
      invariant !dec.streamError && dec.protoRev == REV3 && ok
      invariant DecEach(each, start, i) == Done(params, dec.rest)
    {
      var p;
      ok, p := UnpackParam(dec);
      if !ok {
        EachFails(each, start, i + 1, size);
        return;
      }
      params := params + [p];
    }
  }

  method UnpackParam(dec: WireDecoder) returns (ok: bool, p: ParamDef)
    requires !dec.streamError && dec.protoRev == REV3
    modifies dec
    ensures Gives(DecParam(old(dec.rest)), ok, p, dec.rest)
    ensures dec.protoRev == REV3 && (ok ==> !dec.streamError)
  {
    hide DecType, DecString, DecValue;
    p := ParamDef([], Boolean(false));
    var t, name, v;
    ok, t := dec.ReadType();
    if !ok {
      return;
    }
    ok, name := dec.ReadString();
    if !ok {
      return;
    }
    ok, v := dec.ReadValue(t);
    if !ok {
      return;
    }
    p := ParamDef(name, v);
  }

  method UnpackResults(dec: WireDecoder) returns (ok: bool, results: seq<ResultDef>)
    requires !dec.streamError && dec.protoRev == REV3
    modifies dec
    ensures Gives(DecList((t: Bytes) => DecResult(t), old(dec.rest)), ok, results, dec.rest)
  {
    hide DecType, DecString;
    var each := (t: Bytes) => DecResult(t);
    results := [];
    var size;
    ok, size := dec.Read8();
    if !ok {
      return;
    }
    ghost var start := dec.rest;
    for i := 0 to size
      invariant !dec.streamError && dec.protoRev == REV3 && ok
      invariant DecEach(each, start, i) == Done(results, dec.rest)
    {
      var t, name;
      ok, t := dec.ReadType();
      if !ok {
        EachFails(each, start, i + 1, size);
        return;
      }
      ok, name := dec.ReadString();
      if !ok {
        EachFails(each, start, i + 1, size);
        return;
      }
      results := results + [ResultDef(name, t)];
    }
  }

  method PackRpcValues(values: seq<Value>) returns (packed: Bytes)
    ensures packed == PackedValues(values)
  {
    hide EncValue;
    var each := (v: Value) => EncValue(REV3, v);
    var enc := new WireEncoder(REV3);
    for i := 0 to |values|
      invariant fresh(enc) && enc.protoRev == REV3 && enc.data == [] + EncEach(each, values[..i])
    {
      enc.WriteValue(values[i]);
      NextEach(each, values, i, []);
    }
    assert values[..|values|] == values;
    packed := enc.data;
  }

  method UnpackRpcValues(packed: Bytes, types: seq<Type>) returns (vec: seq<Value>)
    ensures vec == UnpackedValues(packed, types)
  {
    hide DecValue;
    var dec := new WireDecoder(packed, REV3);
    vec := [];
    for i := 0 to |types|
      invariant fresh(dec) && !dec.streamError && dec.protoRev == REV3
      invariant ReadAll(packed, types[..i]) == Done(vec, dec.rest)
    {
      assert types[..i + 1][..i] == types[..i];
      var ok, item := dec.ReadValue(types[i]);
      if !ok {
        ReadAllFails(packed, types, i + 1);
        return [];
      }
      vec := vec + [item];
    }
    assert types[..|types|] == types;
  }

  lemma {:induction false} ReadAllFails(s: Bytes, types: seq<Type>, n: nat)
    requires n <= |types| && ReadAll(s, types[..n]).Fail?
    ensures ReadAll(s, types).Fail?
    decreases |types| - n
  {
    if n == |types| {
      assert types[..n] == types;
    } else {
      assert types[..n + 1][..n] == types[..n];
      ReadAllFails(s, types, n + 1);
    }
  }
}
