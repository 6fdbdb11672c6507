/** JSON values as the policy code sees them.

    `Json` keeps an object's members in the order they were written, the way the
    syntax tree does; `Value` is what such a text denotes, with objects unordered
    (RFC 8259, section 1).  `ValuesEqual` is the comparison both policy writers use
    to decide whether to call SetPolicy. */
module Json {
  import opened Wrappers

  datatype Member = Member(key: string, value: Json)

  datatype Json =
    | Null
    | Bool(b: bool)
    | Number(text: string)   // numbers are compared by their text
    | Str(s: string)
    | Arr(elems: seq<Json>)
    | Obj(members: seq<Member>)

  datatype Value =
    | VNull
    | VBool(b: bool)
    | VNumber(text: string)
    | VStr(s: string)
    | VArr(elems: seq<Value>)
    | VObj(members: map<string, Value>)

  // ── members of an object ────────────────────────────────────────────────────

  function KeySet(ms: seq<Member>): set<string> {
    if ms == [] then {} else {ms[0].key} + KeySet(ms[1..])
  }

  predicate DistinctKeys(ms: seq<Member>) {
    ms == [] || (ms[0].key !in KeySet(ms[1..]) && DistinctKeys(ms[1..]))
  }

  /** Position of the first member called `key`, or `|ms|`. */
  function Find(ms: seq<Member>, key: string): (i: nat)
    ensures i <= |ms|
    ensures i < |ms| ==> ms[i].key == key
    ensures forall j :: 0 <= j < i ==> ms[j].key != key
  {
    if ms == [] then 0 else if ms[0].key == key then 0 else 1 + Find(ms[1..], key)
  }

  predicate WellFormed(j: Json)
    decreases j
  {
    match j
    case Arr(elems) => forall e | e in elems :: WellFormed(e)
    case Obj(members) => DistinctKeys(members) && WellFormedMembers(members)
    case _ => true
  }

  predicate WellFormedMembers(ms: seq<Member>)
    decreases ms
  {
    ms == [] || (WellFormed(ms[0].value) && WellFormedMembers(ms[1..]))
  }

  lemma {:induction false} WellFormedMember(ms: seq<Member>, i: nat)
    requires i < |ms| && WellFormedMembers(ms)
    ensures WellFormed(ms[i].value)
  {
    if i > 0 {
      WellFormedMember(ms[1..], i - 1);
    }
  }

  lemma {:induction false} WellFormedMembersConcat(a: seq<Member>, b: seq<Member>)
    ensures WellFormedMembers(a + b) <==> WellFormedMembers(a) && WellFormedMembers(b)
  {
    if a == [] {
      assert a + b == b;
    } else {
      assert (a + b)[1..] == a[1..] + b;
      WellFormedMembersConcat(a[1..], b);
    }
  }

  // ── denotation ──────────────────────────────────────────────────────────────

  function Denote(j: Json): Value
    decreases j
  {
    match j
    case Null => VNull
    case Bool(b) => VBool(b)
    case Number(t) => VNumber(t)
    case Str(s) => VStr(s)
    case Arr(elems) => VArr(DenoteAll(elems))
    case Obj(members) => VObj(DenoteMembers(members))
  }

  function DenoteAll(elems: seq<Json>): (vs: seq<Value>)
    ensures |vs| == |elems|
    ensures forall i | 0 <= i < |elems| :: vs[i] == Denote(elems[i])
    decreases elems
  {
    if elems == [] then [] else [Denote(elems[0])] + DenoteAll(elems[1..])
  }

  /** The first member of each name decides, as `get` on the syntax tree does. */
  function DenoteMembers(ms: seq<Member>): (m: map<string, Value>)
    ensures m.Keys == KeySet(ms)
    decreases ms
  {
    if ms == [] then map[]
    else DenoteMembers(ms[1..])[ms[0].key := Denote(ms[0].value)]
  }

  lemma {:induction false} DenoteMembersFind(ms: seq<Member>, key: string)
    ensures key in DenoteMembers(ms) <==> Find(ms, key) < |ms|
    ensures key in DenoteMembers(ms) ==> DenoteMembers(ms)[key] == Denote(ms[Find(ms, key)].value)
  {
    if ms != [] {
      DenoteMembersFind(ms[1..], key);
    }
  }

  /** Drops the first member called `key`. */
  function Drop(ms: seq<Member>, key: string): seq<Member> {
    if ms == [] then [] else if ms[0].key == key then ms[1..] else [ms[0]] + Drop(ms[1..], key)
  }

  /** Overwrites the first member called `key` where it stands, or appends one. */
  function Put(ms: seq<Member>, key: string, v: Json): seq<Member> {
    if ms == [] then [Member(key, v)]
    else if ms[0].key == key then [Member(key, v)] + ms[1..]
    else [ms[0]] + Put(ms[1..], key, v)
  }

  lemma {:induction false} DropKeys(ms: seq<Member>, key: string)
    requires DistinctKeys(ms)
    ensures DistinctKeys(Drop(ms, key))
    ensures KeySet(Drop(ms, key)) == KeySet(ms) - {key}
  {
    if ms != [] && ms[0].key != key {
      DropKeys(ms[1..], key);
      assert Drop(ms, key)[1..] == Drop(ms[1..], key);
    }
  }

  lemma {:induction false} PutKeys(ms: seq<Member>, key: string, v: Json)
    requires DistinctKeys(ms)
    ensures DistinctKeys(Put(ms, key, v))
    ensures KeySet(Put(ms, key, v)) == KeySet(ms) + {key}
  {
    if ms == [] {
      assert Put(ms, key, v)[1..] == [];
    } else if ms[0].key == key {
      assert Put(ms, key, v)[1..] == ms[1..];
    } else {
      PutKeys(ms[1..], key, v);
      assert Put(ms, key, v)[1..] == Put(ms[1..], key, v);
    }
  }

  lemma {:induction false} EditedMembersWellFormed(ms: seq<Member>, key: string, v: Json)
    requires WellFormedMembers(ms) && WellFormed(v)
    ensures WellFormedMembers(Drop(ms, key))
    ensures WellFormedMembers(Put(ms, key, v))
  {
    if ms == [] {
      assert Put(ms, key, v)[1..] == [];
    } else if ms[0].key == key {
      assert Put(ms, key, v)[1..] == ms[1..];
    } else {
      EditedMembersWellFormed(ms[1..], key, v);
      assert Put(ms, key, v)[1..] == Put(ms[1..], key, v);
      assert Drop(ms, key)[1..] == Drop(ms[1..], key);
    }
  }

  /** Dropping a member removes exactly that entry from the meaning. */
  lemma {:induction false} DropMeaning(ms: seq<Member>, key: string)
    requires DistinctKeys(ms)
    ensures DenoteMembers(Drop(ms, key)) == DenoteMembers(ms) - {key}
  {
    if ms != [] && ms[0].key != key {
      DropMeaning(ms[1..], key);
      assert Drop(ms, key)[1..] == Drop(ms[1..], key);
    }
  }

  lemma {:induction false} UpdatesCommute<K, V>(m: map<K, V>, j: K, v: V, k: K, w: V)
    ensures j != k ==> m[j := v][k := w] == m[k := w][j := v]
    ensures m[k := v][k := w] == m[k := w]
  {
  }

  /** Putting a member updates exactly that entry of the meaning. */
  lemma {:induction false} PutMeaning(ms: seq<Member>, key: string, v: Json)
    ensures DenoteMembers(Put(ms, key, v)) == DenoteMembers(ms)[key := Denote(v)]
  {
    var out := Put(ms, key, v);
    if ms == [] {
      assert out[1..] == [];
    } else if ms[0].key == key {
      assert out[1..] == ms[1..];
      UpdatesCommute(DenoteMembers(ms[1..]), key, Denote(ms[0].value), key, Denote(v));
    } else {
      PutMeaning(ms[1..], key, v);
      assert out[0] == ms[0] && out[1..] == Put(ms[1..], key, v);
      UpdatesCommute(DenoteMembers(ms[1..]), key, Denote(v), ms[0].key, Denote(ms[0].value));
    }
  }

  /** The members of a well-formed object. */
  predicate GoodMembers(ms: seq<Member>) {
    DistinctKeys(ms) && WellFormedMembers(ms)
  }

  lemma {:induction false} DropGood(ms: seq<Member>, key: string)
    requires GoodMembers(ms)
    ensures GoodMembers(Drop(ms, key))
    ensures DenoteMembers(Drop(ms, key)) == DenoteMembers(ms) - {key}
  {
    DropKeys(ms, key);
    DropMeaning(ms, key);
    EditedMembersWellFormed(ms, key, Null);
  }

  lemma {:induction false} PutGood(ms: seq<Member>, key: string, v: Json)
    requires GoodMembers(ms) && WellFormed(v)
    ensures GoodMembers(Put(ms, key, v))
    ensures DenoteMembers(Put(ms, key, v)) == DenoteMembers(ms)[key := Denote(v)]
  {
    PutKeys(ms, key, v);
    PutMeaning(ms, key, v);
    EditedMembersWellFormed(ms, key, v);
  }

  lemma {:induction false} PutAbsent(ms: seq<Member>, key: string, v: Json)
    requires key !in KeySet(ms)
    ensures Put(ms, key, v) == ms + [Member(key, v)]
  {
    if ms != [] {
      PutAbsent(ms[1..], key, v);
    }
  }

  /** The value of the first member called `key`. */
  function Lookup(ms: seq<Member>, key: string): Option<Json> {
    var i := Find(ms, key);
    if i < |ms| then Some(ms[i].value) else None
  }

  lemma {:induction false} LookupStep(ms: seq<Member>, key: string)
    requires ms != []
    ensures Lookup(ms, key) == if ms[0].key == key then Some(ms[0].value) else Lookup(ms[1..], key)
  {
  }

  lemma {:induction false} LookupPut(ms: seq<Member>, key: string, v: Json, other: string)
    ensures Lookup(Put(ms, key, v), other) == if other == key then Some(v) else Lookup(ms, other)
  {
    var out := Put(ms, key, v);
    LookupStep(out, other);
    if ms == [] {
      assert out[1..] == [];
    } else {
      LookupStep(ms, other);
      if ms[0].key == key {
        assert out[1..] == ms[1..];
      } else {
        assert out[1..] == Put(ms[1..], key, v);
        LookupPut(ms[1..], key, v, other);
      }
    }
  }

  lemma {:induction false} PutTwice(ms: seq<Member>, key: string, v: Json, w: Json)
    ensures Put(Put(ms, key, v), key, w) == Put(ms, key, w)
  {
    if ms == [] {
      assert Put(ms, key, v)[1..] == [];
    } else if ms[0].key == key {
      assert Put(ms, key, v)[1..] == ms[1..];
    } else {
      PutTwice(ms[1..], key, v, w);
      assert Put(ms, key, v)[1..] == Put(ms[1..], key, v);
    }
  }

  lemma {:induction false} PutSame(ms: seq<Member>, key: string)
    requires Lookup(ms, key).Some?
    ensures Put(ms, key, Lookup(ms, key).value) == ms
  {
    if ms[0].key != key {
      PutSame(ms[1..], key);
    }
  }

  lemma {:induction false} LookupMeaning(ms: seq<Member>, key: string)
    ensures Lookup(ms, key).None? <==> key !in DenoteMembers(ms)
    ensures Lookup(ms, key).Some? ==> DenoteMembers(ms)[key] == Denote(Lookup(ms, key).value)
    ensures Lookup(ms, key).Some? && WellFormedMembers(ms) ==> WellFormed(Lookup(ms, key).value)
  {
    DenoteMembersFind(ms, key);
    if Find(ms, key) < |ms| && WellFormedMembers(ms) {
      WellFormedMember(ms, Find(ms, key));
    }
  }

  // ── the comparison ──────────────────────────────────────────────────────────

  /** `json_values_equal`: the object case only walks the left object's members and
      relies on the two lengths being equal. */
  predicate ValuesEqual(a: Json, b: Json)
    decreases a
  {
    match (a, b)
    case (Null, Null) => true
    case (Bool(x), Bool(y)) => x == y
    case (Number(x), Number(y)) => x == y
    case (Str(x), Str(y)) => x == y
    case (Arr(x), Arr(y)) =>
      |x| == |y| && forall i | 0 <= i < |x| :: ValuesEqual(x[i], y[i])
    case (Obj(x), Obj(y)) => |x| == |y| && MembersEqual(x, y)
    case _ => false
  }

  predicate MembersEqual(x: seq<Member>, y: seq<Member>)
    decreases x
  {
    x == [] ||
    (var k := Find(y, x[0].key);
     k < |y| && ValuesEqual(x[0].value, y[k].value) && MembersEqual(x[1..], y))
  }

  /** Equal-size key sets, one inside the other, are equal: why the one-sided walk
      together with the length test suffices. */
  lemma {:induction false} SubsetOfSameSize(a: set<string>, b: set<string>)
    requires a <= b && |a| == |b|
    ensures a == b
  {
    assert b == a + (b - a);
  }

  lemma {:induction false} KeySetSize(ms: seq<Member>)
    requires DistinctKeys(ms)
    ensures |KeySet(ms)| == |ms|
  {
    if ms != [] {
      KeySetSize(ms[1..]);
    }
  }

  /** MembersEqual says that the left object's entries all occur on the right. */
  lemma {:induction false} MembersEqualIsInclusion(x: seq<Member>, y: seq<Member>)
    requires DistinctKeys(x) && WellFormedMembers(x)
    requires DistinctKeys(y) && WellFormedMembers(y)
    ensures MembersEqual(x, y) <==>
            (forall k | k in DenoteMembers(x) :: k in DenoteMembers(y) && DenoteMembers(y)[k] == DenoteMembers(x)[k])
    decreases x
  {
    if x != [] {
      var k := x[0].key;
      var i := Find(y, k);
      DenoteMembersFind(y, k);
      if i < |y| {
        WellFormedMember(y, i);
        ComparisonDecidesMeaning(x[0].value, y[i].value);
      }
      MembersEqualIsInclusion(x[1..], y);
      assert k !in KeySet(x[1..]);
    }
  }

  /** The comparison decides equality of what the two texts denote. */
  lemma {:induction false} ComparisonDecidesMeaning(a: Json, b: Json)
    requires WellFormed(a) && WellFormed(b)
    ensures ValuesEqual(a, b) <==> Denote(a) == Denote(b)
    decreases a
  {
    match (a, b)
    case (Arr(x), Arr(y)) =>
      if |x| == |y| {
        forall i | 0 <= i < |x|
          ensures ValuesEqual(x[i], y[i]) <==> Denote(x[i]) == Denote(y[i])
        {
          ComparisonDecidesMeaning(x[i], y[i]);
        }
        if Denote(a) == Denote(b) {
          forall i | 0 <= i < |x|
            ensures ValuesEqual(x[i], y[i])
          {
            assert DenoteAll(x)[i] == DenoteAll(y)[i];
          }
        } else {
          assert DenoteAll(x) != DenoteAll(y);
        }
      }
    case (Obj(x), Obj(y)) =>
      MembersEqualIsInclusion(x, y);
      KeySetSize(x);
      KeySetSize(y);
      if ValuesEqual(a, b) {
        assert DenoteMembers(x).Keys <= DenoteMembers(y).Keys;
        SubsetOfSameSize(KeySet(x), KeySet(y));
        assert DenoteMembers(x) == DenoteMembers(y);
      }
    case _ =>
  }

  /** Hence an equivalence, although the code only looks up one side's keys. */
  lemma {:induction false} ComparisonIsEquivalence(a: Json, b: Json, c: Json)
    requires WellFormed(a) && WellFormed(b) && WellFormed(c)
    ensures ValuesEqual(a, a)
    ensures ValuesEqual(a, b) ==> ValuesEqual(b, a)
    ensures ValuesEqual(a, b) && ValuesEqual(b, c) ==> ValuesEqual(a, c)
  {
    ComparisonDecidesMeaning(a, a);
    ComparisonDecidesMeaning(a, b);
    ComparisonDecidesMeaning(b, a);
    ComparisonDecidesMeaning(b, c);
    ComparisonDecidesMeaning(a, c);
  }
}
