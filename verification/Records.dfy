/** JavaScript objects as ordered records: insertion order is kept, a rewritten key stays in place. */
module Records {
  import opened Wrappers
  import opened Bytes

  datatype JsValue = BigNumber(n: nat) | Number(i: int) | Text(s: string) | Other(id: int)

  type Record = seq<(string, JsValue)>

  function Lookup(r: Record, key: string): Option<JsValue> {
    if r == [] then None
    else if r[0].0 == key then Some(r[0].1)
    else Lookup(r[1..], key)
  }

  /** `r[key] = v` */
  function Put(r: Record, key: string, v: JsValue): Record {
    if r == [] then [(key, v)]
    else if r[0].0 == key then [(key, v)] + r[1..]
    else [r[0]] + Put(r[1..], key, v)
  }

  /** `{...base, ...r}` */
  function Spread(base: Record, r: Record): Record {
    if r == [] then base
    else
      var n := |r| - 1;
      Put(Spread(base, r[..n]), r[n].0, r[n].1)
  }

  /** `omit(r, [key])` */
  function Omit(r: Record, key: string): Record {
    if r == [] then [] else if r[0].0 == key then Omit(r[1..], key) else [r[0]] + Omit(r[1..], key)
  }

  function Values(r: Record): seq<JsValue> {
    if r == [] then [] else [r[0].1] + Values(r[1..])
  }

  function StripUnderscore(key: string): string {
    if key != "" && key[0] == '_' then key[1..] else key
  }

  function Plainly(v: JsValue): JsValue {
    if v.BigNumber? then Text(Decimal(v.n)) else v
  }

  function RemoveUnderscores(r: Record): Record {
    if r == [] then []
    else
      var n := |r| - 1;
      Put(RemoveUnderscores(r[..n]), StripUnderscore(r[n].0), r[n].1)
  }

  function ConvertBigNumbers(r: Record): Record {
    if r == [] then []
    else
      var n := |r| - 1;
      Put(ConvertBigNumbers(r[..n]), r[n].0, Plainly(r[n].1))
  }

  /** `_requestParamsToTypedParams` */
  function TypedParams(request: Record): Record {
    ConvertBigNumbers(RemoveUnderscores(request))
  }

  lemma {:induction false} LookupPut(r: Record, key: string, v: JsValue, k: string)
    ensures Lookup(Put(r, key, v), k) == if k == key then Some(v) else Lookup(r, k)
  {
    if r != [] && r[0].0 != key {
      LookupPut(r[1..], key, v, k);
      assert Put(r, key, v)[1..] == Put(r[1..], key, v);
    }
  }

  /** A rewritten key stays in its place and a new one goes last; all other entries stay. */
  lemma {:induction false} PutInPlace(r: Record, key: string, v: JsValue, i: nat)
    requires i < |r| && r[i].0 == key && forall j :: 0 <= j < i ==> r[j].0 != key
    ensures Put(r, key, v) == r[i := (key, v)]
  {
    if i > 0 {
      PutInPlace(r[1..], key, v, i - 1);
      assert r[i := (key, v)] == [r[0]] + r[1..][i - 1 := (key, v)];
    }
  }

  lemma {:induction false} LookupAppend(a: Record, b: Record, k: string)
    ensures Lookup(a + b, k) == if Lookup(a, k).Some? then Lookup(a, k) else Lookup(b, k)
  {
    if a == [] {
      assert a + b == b;
    } else {
      LookupAppend(a[1..], b, k);
      assert (a + b)[1..] == a[1..] + b;
    }
  }

  lemma {:induction false} PutAbsent(r: Record, key: string, v: JsValue)
    requires Lookup(r, key) == None
    ensures Put(r, key, v) == r + [(key, v)]
  {
    if r != [] {
      PutAbsent(r[1..], key, v);
      assert r == [r[0]] + r[1..];
    }
  }

  ghost predicate DistinctKeys(r: Record) {
    forall i, j :: 0 <= i < j < |r| ==> r[i].0 != r[j].0
  }

  lemma {:induction false} LookupAbsent(r: Record, k: string)
    ensures Lookup(r, k) == None <==> forall i :: 0 <= i < |r| ==> r[i].0 != k
  {
    if r != [] {
      LookupAbsent(r[1..], k);
      assert r == [r[0]] + r[1..];
    }
  }

  lemma {:induction false} LookupSpread(base: Record, r: Record, k: string)
    requires DistinctKeys(r)
    ensures Lookup(Spread(base, r), k) == if Lookup(r, k).Some? then Lookup(r, k) else Lookup(base, k)
  {
    if r != [] {
      var n := |r| - 1;
      LookupSpread(base, r[..n], k);
      LookupPut(Spread(base, r[..n]), r[n].0, r[n].1, k);
      assert r == r[..n] + [r[n]];
      LookupAppend(r[..n], [r[n]], k);
      LookupAbsent(r[..n], r[n].0);
    }
  }

  // ---- Stripped requests ----

  function Typed(e: (string, JsValue)): (string, JsValue) {
    (StripUnderscore(e.0), Plainly(e.1))
  }

  function Stripped(e: (string, JsValue)): (string, JsValue) {
    (StripUnderscore(e.0), e.1)
  }

  /** When keys are the same once stripped, the last value given to them counts. */
  lemma {:induction false} LastValueCounts(r: Record, i: nat)
    requires i < |r| && forall j :: i < j < |r| ==> StripUnderscore(r[j].0) != StripUnderscore(r[i].0)
    ensures Lookup(RemoveUnderscores(r), StripUnderscore(r[i].0)) == Some(r[i].1)
    decreases |r|
  {
    var n := |r| - 1;
    LookupPut(RemoveUnderscores(r[..n]), StripUnderscore(r[n].0), r[n].1, StripUnderscore(r[i].0));
    if i < n { LastValueCounts(r[..n], i); }
  }

  lemma {:induction false} LookupConverted(r: Record, k: string)
    requires DistinctKeys(r)
    ensures Lookup(ConvertBigNumbers(r), k) ==
            match Lookup(r, k)
            case None => None
            case Some(v) => Some(if v.BigNumber? then Text(Decimal(v.n)) else v)
  {
    if r != [] {
      var n := |r| - 1;
      LookupConverted(r[..n], k);
      LookupPut(ConvertBigNumbers(r[..n]), r[n].0, Plainly(r[n].1), k);
      assert r == r[..n] + [r[n]];
      LookupAppend(r[..n], [r[n]], k);
      LookupAbsent(r[..n], r[n].0);
    }
  }

  /** One leading underscore goes, any other key stays. */
  lemma OneUnderscore(s: string)
    ensures StripUnderscore("_" + s) == s
    ensures s == "" || s[0] != '_' ==> StripUnderscore(s) == s
  {
    assert ("_" + s)[1..] == s;
  }

  /** The request's entry as the typed message has it: key without underscore, number as text. */
  ghost predicate IsTyped(e: (string, JsValue), t: (string, JsValue)) {
    && (e.0 == "_" + t.0 || (e.0 == t.0 && (e.0 == "" || e.0[0] != '_')))
    && t.1 == if e.1.BigNumber? then Text(Decimal(e.1.n)) else e.1
  }

  ghost predicate HasKey(r: Record, key: string) {
    exists i :: 0 <= i < |r| && r[i].0 == key
  }

  ghost predicate DistinctStripped(r: Record) {
    forall i, j :: 0 <= i < j < |r| ==> StripUnderscore(r[i].0) != StripUnderscore(r[j].0)
  }

  lemma {:induction false} RemoveUnderscoresIsMap(r: Record)
    requires DistinctStripped(r)
    ensures RemoveUnderscores(r) == Map(Stripped, r)
  {
    if r != [] {
      var n := |r| - 1;
      RemoveUnderscoresIsMap(r[..n]);
      var done := Map(Stripped, r[..n]);
      LookupAbsent(done, StripUnderscore(r[n].0));
      PutAbsent(done, StripUnderscore(r[n].0), r[n].1);
      MapSnoc(Stripped, r);
    }
  }

  function Converted(e: (string, JsValue)): (string, JsValue) {
    (e.0, Plainly(e.1))
  }

  lemma {:induction false} ConvertIsMap(r: Record)
    requires DistinctKeys(r)
    ensures ConvertBigNumbers(r) == Map(Converted, r)
  {
    if r != [] {
      var n := |r| - 1;
      ConvertIsMap(r[..n]);
      var done := Map(Converted, r[..n]);
      LookupAbsent(done, r[n].0);
      PutAbsent(done, r[n].0, Plainly(r[n].1));
      MapSnoc(Converted, r);
    }
  }

  /** With distinct stripped keys the conversion works entry by entry and keeps the order. */
  lemma TypedParamsIsMap(r: Record)
    requires DistinctStripped(r)
    ensures TypedParams(r) == Map(Typed, r) && DistinctKeys(TypedParams(r))
    ensures |TypedParams(r)| == |r| && forall i :: 0 <= i < |r| ==> IsTyped(r[i], TypedParams(r)[i])
  {
    RemoveUnderscoresIsMap(r);
    ConvertIsMap(RemoveUnderscores(r));
    forall i | 0 <= i < |r| ensures TypedParams(r)[i] == Typed(r[i]) && IsTyped(r[i], TypedParams(r)[i]) {
      assert RemoveUnderscores(r)[i] == Stripped(r[i]);
      assert TypedParams(r)[i] == Converted(Stripped(r[i]));
      TypedMeaning(r[i]);
    }
  }

  lemma TypedMeaning(e: (string, JsValue))
    ensures IsTyped(e, Typed(e))
  {
    if e.0 != "" && e.0[0] == '_' {
      assert e.0 == "_" + e.0[1..];
    }
  }

  lemma {:induction false} ValuesMeaning(r: Record)
    ensures |Values(r)| == |r| && forall i :: 0 <= i < |r| ==> Values(r)[i] == r[i].1
  {
    if r != [] { ValuesMeaning(r[1..]); }
  }

  lemma {:induction false} OmitAbsent(r: Record, key: string)
    requires forall i :: 0 <= i < |r| ==> r[i].0 != key
    ensures Omit(r, key) == r
  {
    if r != [] {
      OmitAbsent(r[1..], key);
      assert r == [r[0]] + r[1..];
    }
  }

  lemma {:induction false} OmitAt(r: Record, key: string, k: nat)
    requires k < |r| && forall i :: 0 <= i < |r| ==> (r[i].0 == key <==> i == k)
    ensures Omit(r, key) == r[..k] + r[k + 1..]
  {
    if k == 0 {
      OmitAbsent(r[1..], key);
    } else {
      OmitAt(r[1..], key, k - 1);
      assert r[..k] + r[k + 1..] == [r[0]] + (r[1..][..k - 1] + r[1..][k..]);
    }
  }

  /** `vs` are the record's values in order but for the entry at `k`. */
  ghost predicate ValuesBut(r: Record, vs: seq<JsValue>, k: int) {
    && 0 <= k < |r| && |vs| == |r| - 1
    && (forall i :: 0 <= i < k ==> vs[i] == r[i].1)
    && (forall i :: k <= i < |vs| ==> vs[i] == r[i + 1].1)
  }

  lemma ValuesAround(r: Record, k: nat)
    requires k < |r|
    ensures ValuesBut(r, Values(r[..k] + r[k + 1..]), k)
  {
    ValuesMeaning(r[..k] + r[k + 1..]);
  }

  /** `vs` are the values of the record in order, without that of the key. */
  ghost predicate ValuesWithout(r: Record, key: string, vs: seq<JsValue>) {
    if HasKey(r, key) then exists k :: ValuesBut(r, vs, k) && r[k].0 == key
    else |vs| == |r| && forall i :: 0 <= i < |r| ==> vs[i] == r[i].1
  }

  /** Omitting a key leaves the other values in their order. */
  lemma OmitMeaning(r: Record, key: string)
    requires DistinctKeys(r)
    ensures ValuesWithout(r, key, Values(Omit(r, key)))
  {
    if HasKey(r, key) {
      var k :| 0 <= k < |r| && r[k].0 == key;
      OmitAt(r, key, k);
      ValuesAround(r, k);
    } else {
      OmitAbsent(r, key);
      ValuesMeaning(r);
    }
  }

  /** The calldata arguments are the same, up to number format, unless the key is underscored. */
  lemma {:induction false} OmitCommutes(r: Record, key: string)
    requires forall i :: 0 <= i < |r| ==> r[i].0 != "_" + key
    requires key == "" || key[0] != '_'
    ensures Values(Omit(Map(Typed, r), key)) == Map(Plainly, Values(Omit(r, key)))
  {
    if r != [] {
      OmitCommutes(r[1..], key);
      assert Map(Typed, r)[1..] == Map(Typed, r[1..]);
      assert StripUnderscore(r[0].0) == key <==> r[0].0 == key by { StripMeaning(r[0].0, key); }
      if r[0].0 != key {
        var rest := Omit(r[1..], key);
        MapPrepend(r[0].1, Values(rest));
        ValuesCons(r[0], rest);
        ValuesCons(Typed(r[0]), Omit(Map(Typed, r[1..]), key));
      }
    }
  }

  lemma StripMeaning(k: string, key: string)
    requires key == "" || key[0] != '_'
    ensures StripUnderscore(k) == key <==> k == key || k == "_" + key
  {
    if k != "" && k[0] == '_' {
      assert k == "_" + k[1..];
    }
    assert ("_" + key)[1..] == key;
  }

  lemma ValuesCons(e: (string, JsValue), r: Record)
    ensures Values([e] + r) == [e.1] + Values(r)
  {
    assert ([e] + r)[1..] == r;
  }

  lemma MapPrepend(v: JsValue, vs: seq<JsValue>)
    ensures Map(Plainly, [v] + vs) == [Plainly(v)] + Map(Plainly, vs)
  {
    assert ([v] + vs)[1..] == vs;
  }

  /** An underscored key survives in the raw request: one value more. */
  lemma UnderscoredKeyIsKept(r: Record, key: string, at: nat)
    requires DistinctStripped(r) && at < |r| && r[at].0 == "_" + key
    requires key == "" || key[0] != '_'
    ensures |Values(Omit(r, key))| == |r| && |Values(Omit(Map(Typed, r), key))| == |r| - 1
  {
    forall i | 0 <= i < |r| ensures r[i].0 != key && (StripUnderscore(r[i].0) == key <==> i == at) {
      OnlyOneStripsTo(r, key, at, i);
    }
    OmitAbsent(r, key);
    ValuesMeaning(r);
    var m := Map(Typed, r);
    forall i | 0 <= i < |m| ensures m[i].0 == key <==> i == at {
      assert m[i] == Typed(r[i]);
    }
    OmitOne(m, key, at);
    ValuesMeaning(Omit(m, key));
  }

  lemma OnlyOneStripsTo(r: Record, key: string, at: nat, i: nat)
    requires DistinctStripped(r) && at < |r| && r[at].0 == "_" + key && i < |r|
    requires key == "" || key[0] != '_'
    ensures r[i].0 != key && (StripUnderscore(r[i].0) == key <==> i == at)
  {
    StripMeaning(r[i].0, key);
    StripMeaning(r[at].0, key);
    if i != at {
      assert StripUnderscore(r[i].0) != StripUnderscore(r[at].0);
    }
  }

  lemma {:induction false} OmitOne(r: Record, key: string, at: nat)
    requires at < |r| && forall i :: 0 <= i < |r| ==> (r[i].0 == key <==> i == at)
    ensures |Omit(r, key)| == |r| - 1
  {
    if at == 0 {
      OmitAbsent(r[1..], key);
    } else {
      OmitOne(r[1..], key, at - 1);
    }
  }
}
