/** Which egress Service a tailnet FQDN resolves to inside the cluster. */
module DnsRewrites {
  import opened Wrappers
  import opened Ordering

  /** A Service as the rewrite collection sees it.  `fqdn` is `None` when the annotations
      do not parse or name none. */
  datatype Service = Service(
    ns: string,
    name: string,
    egress: bool,
    deleting: bool,
    targetNamespace: Option<string>,
    fqdn: Option<string>,
    wgService: string)

  datatype Operator = Operator(ns: string, claimDefault: bool)

  datatype Candidate = Candidate(ns: string, name: string, fqdn: string, target: string)

  /** A candidate that lost its FQDN, and who won it. */
  datatype Duplicate = Duplicate(loser: Candidate, winner: Key)

  function KeyOf(c: Candidate): Key {
    (c.ns, c.name)
  }

  predicate CandidateLe(a: Candidate, b: Candidate) {
    KeyLe(KeyOf(a), KeyOf(b))
  }

  predicate Ours(s: Service, op: Operator) {
    match s.targetNamespace
    case Some(n) => n == op.ns
    case None => op.claimDefault
  }

  function CandidateOf(s: Service, op: Operator): Option<Candidate> {
    if s.egress && !s.deleting && Ours(s, op) && s.fqdn.Some? && s.fqdn.value != ""
    then Some(Candidate(s.ns, s.name, s.fqdn.value, s.wgService + "." + op.ns + ".svc.cluster.local"))
    else None
  }

  function Candidates(services: seq<Service>, op: Operator): seq<Candidate> {
    if services == [] then []
    else
      (match CandidateOf(services[0], op) case Some(c) => [c] case None => [])
      + Candidates(services[1..], op)
  }

  /** Namespace and name identify a Service. */
  predicate DistinctCandidates(cs: seq<Candidate>) {
    forall i, j :: 0 <= i < j < |cs| ==> KeyOf(cs[i]) != KeyOf(cs[j])
  }

  // ── the specification ───────────────────────────────────────────────────────

  /** The owner of an FQDN: its least candidate by namespace, then name. */
  predicate Wins(c: Candidate, cs: seq<Candidate>) {
    c in cs && forall d | d in cs && d.fqdn == c.fqdn :: CandidateLe(c, d)
  }

  type Rewrite = (string, string)

  predicate RewriteLe(a: Rewrite, b: Rewrite) {
    KeyLe(a, b)
  }

  /** Strictly increasing in the losers' keys. */
  predicate InOrder(dups: seq<Duplicate>) {
    forall i, j :: 0 <= i < j < |dups| ==>
      CandidateLe(dups[i].loser, dups[j].loser) && dups[i].loser != dups[j].loser
  }

  /** The rewrites are the winners' targets, sorted, one per FQDN; the duplicates are the
      other candidates in order, each naming the true winner. */
  ghost predicate IsSelection(cs: seq<Candidate>, rewrites: seq<Rewrite>, dups: seq<Duplicate>) {
    && Sorted(rewrites, RewriteLe)
    && (forall i, j :: 0 <= i < j < |rewrites| ==> rewrites[i].0 != rewrites[j].0)
    && (forall f, t :: (f, t) in rewrites <==> exists c :: Wins(c, cs) && c.fqdn == f && c.target == t)
    && (forall c :: (exists d :: d in dups && d.loser == c) <==> c in cs && !Wins(c, cs))
    && InOrder(dups)
    && (forall d | d in dups :: exists c :: Wins(c, cs) && c.fqdn == d.loser.fqdn && d.winner == KeyOf(c))
    && |rewrites| + |dups| == |cs|
  }

  // ── collecting ──────────────────────────────────────────────────────────────

  lemma {:induction false} CandidateOrder()
    ensures TotalPreorder(CandidateLe)
  {
    forall a, b
      ensures CandidateLe(a, b) || CandidateLe(b, a)
    {
      KeyLeTotal(KeyOf(a), KeyOf(b));
    }
    forall a, b, c | CandidateLe(a, b) && CandidateLe(b, c)
      ensures CandidateLe(a, c)
    {
      KeyLeTransitive(KeyOf(a), KeyOf(b), KeyOf(c));
    }
  }

  lemma {:induction false} RewriteOrder()
    ensures TotalPreorder(RewriteLe)
  {
    forall a, b
      ensures RewriteLe(a, b) || RewriteLe(b, a)
    {
      KeyLeTotal(a, b);
    }
    forall a, b, c | RewriteLe(a, b) && RewriteLe(b, c)
      ensures RewriteLe(a, c)
    {
      KeyLeTransitive(a, b, c);
    }
  }

  /** Position of the first candidate for `fqdn`, or `|cs|`. */
  function FirstIndex(cs: seq<Candidate>, fqdn: string): (i: nat)
    ensures i <= |cs|
    ensures i < |cs| ==> cs[i].fqdn == fqdn
    ensures forall j | 0 <= j < i :: cs[j].fqdn != fqdn
  {
    if cs == [] then 0 else if cs[0].fqdn == fqdn then 0 else 1 + FirstIndex(cs[1..], fqdn)
  }

  predicate IsFirst(cs: seq<Candidate>, i: nat)
    requires i < |cs|
  {
    FirstIndex(cs, cs[i].fqdn) == i
  }

  /** In a sorted list the winners are the first candidates of their FQDNs. */
  lemma {:induction false} FirstWins(cs: seq<Candidate>, i: nat)
    requires i < |cs| && Sorted(cs, CandidateLe) && DistinctCandidates(cs)
    ensures IsFirst(cs, i) <==> Wins(cs[i], cs)
  {
    var first := FirstIndex(cs, cs[i].fqdn);
    if IsFirst(cs, i) {
      forall d | d in cs && d.fqdn == cs[i].fqdn
        ensures CandidateLe(cs[i], d)
      {
        var k :| 0 <= k < |cs| && cs[k] == d;
        KeyLeTotal(KeyOf(d), KeyOf(d));
      }
    } else {
      assert CandidateLe(cs[first], cs[i]) && cs[first] in cs;
      KeyLeTotal(KeyOf(cs[first]), KeyOf(cs[i]));
    }
  }

  function WinnersUpTo(cs: seq<Candidate>, k: nat): seq<Candidate>
    requires k <= |cs|
  {
    if k == 0 then []
    else if IsFirst(cs, k - 1) then WinnersUpTo(cs, k - 1) + [cs[k - 1]]
    else WinnersUpTo(cs, k - 1)
  }

  /** What is reported about the candidate at `j` when it is not the first of its FQDN. */
  function LoserAt(cs: seq<Candidate>, j: nat): Duplicate
    requires j < |cs|
  {
    Duplicate(cs[j], KeyOf(cs[FirstIndex(cs, cs[j].fqdn)]))
  }

  function LosersUpTo(cs: seq<Candidate>, k: nat): seq<Duplicate>
    requires k <= |cs|
  {
    if k == 0 then []
    else if IsFirst(cs, k - 1) then LosersUpTo(cs, k - 1)
    else LosersUpTo(cs, k - 1) + [LoserAt(cs, k - 1)]
  }

  /** The first candidate of each FQDN, in order. */
  function Winners(cs: seq<Candidate>): seq<Candidate> {
    WinnersUpTo(cs, |cs|)
  }

  /** A report for each other candidate, in order. */
  function Losers(cs: seq<Candidate>): seq<Duplicate> {
    LosersUpTo(cs, |cs|)
  }

  function RewritesOf(cs: seq<Candidate>): seq<Rewrite> {
    if cs == [] then [] else RewritesOf(cs[..|cs| - 1]) + [(cs[|cs| - 1].fqdn, cs[|cs| - 1].target)]
  }

  lemma {:induction false} WinnersMembers(cs: seq<Candidate>, k: nat)
    requires k <= |cs|
    ensures forall c :: c in WinnersUpTo(cs, k) <==> exists i :: 0 <= i < k && IsFirst(cs, i) && cs[i] == c
  {
    if k > 0 {
      WinnersMembers(cs, k - 1);
    }
  }

  lemma {:induction false} WinnersAndLosers(cs: seq<Candidate>, k: nat)
    requires k <= |cs|
    ensures |WinnersUpTo(cs, k)| + |LosersUpTo(cs, k)| == k
  {
    if k > 0 {
      WinnersAndLosers(cs, k - 1);
    }
  }

  /** No two winners share an FQDN. */
  lemma {:induction false} WinnersDistinct(cs: seq<Candidate>, k: nat)
    requires k <= |cs|
    ensures forall i, j :: 0 <= i < j < |WinnersUpTo(cs, k)| ==> WinnersUpTo(cs, k)[i].fqdn != WinnersUpTo(cs, k)[j].fqdn
  {
    if k > 0 {
      WinnersDistinct(cs, k - 1);
      WinnersMembers(cs, k - 1);
      var before := WinnersUpTo(cs, k - 1);
      forall i | 0 <= i < |before| && IsFirst(cs, k - 1)
        ensures before[i].fqdn != cs[k - 1].fqdn
      {
        assert before[i] in before;
      }
    }
  }

  lemma {:induction false} LosersComeFrom(cs: seq<Candidate>, k: nat)
    requires k <= |cs|
    ensures forall d | d in LosersUpTo(cs, k) :: exists j :: 0 <= j < k && !IsFirst(cs, j) && d == LoserAt(cs, j)
  {
    if k > 0 {
      LosersComeFrom(cs, k - 1);
      forall d | d in LosersUpTo(cs, k)
        ensures exists j :: 0 <= j < k && !IsFirst(cs, j) && d == LoserAt(cs, j)
      {
        if d !in LosersUpTo(cs, k - 1) {
          assert d == LoserAt(cs, k - 1);
        }
      }
    }
  }

  lemma {:induction false} LosersInclude(cs: seq<Candidate>, k: nat, j: nat)
    requires j < k <= |cs| && !IsFirst(cs, j)
    ensures LoserAt(cs, j) in LosersUpTo(cs, k)
  {
    if j < k - 1 {
      LosersInclude(cs, k - 1, j);
    }
  }

  lemma {:induction false} InOrderAppend(dups: seq<Duplicate>, d: Duplicate)
    requires InOrder(dups)
    requires forall e | e in dups :: CandidateLe(e.loser, d.loser) && e.loser != d.loser
    ensures InOrder(dups + [d])
  {
  }

  lemma {:induction false} LosersOrdered(cs: seq<Candidate>, k: nat)
    requires k <= |cs| && Sorted(cs, CandidateLe) && DistinctCandidates(cs)
    ensures InOrder(LosersUpTo(cs, k))
  {
    if k > 0 {
      LosersOrdered(cs, k - 1);
      LosersComeFrom(cs, k - 1);
      var before := LosersUpTo(cs, k - 1);
      forall e | e in before
        ensures CandidateLe(e.loser, cs[k - 1]) && e.loser != cs[k - 1]
      {
        var j :| 0 <= j < k - 1 && !IsFirst(cs, j) && e == LoserAt(cs, j);
        assert KeyOf(cs[j]) != KeyOf(cs[k - 1]);
      }
      InOrderAppend(before, LoserAt(cs, k - 1));
    }
  }

  lemma {:induction false} RewritesAt(cs: seq<Candidate>)
    ensures |RewritesOf(cs)| == |cs|
    ensures forall i | 0 <= i < |cs| :: RewritesOf(cs)[i] == (cs[i].fqdn, cs[i].target)
  {
    if cs != [] {
      RewritesAt(cs[..|cs| - 1]);
    }
  }

  function SelectedRewrites(cs: seq<Candidate>): seq<Rewrite> {
    Sort(RewritesOf(Winners(Sort(cs, CandidateLe))), RewriteLe)
  }

  function SelectedDuplicates(cs: seq<Candidate>): seq<Duplicate> {
    Losers(Sort(cs, CandidateLe))
  }

  function FqdnOf(r: Rewrite): string {
    r.0
  }

  lemma {:induction false} RewritesMembers(cs: seq<Candidate>)
    ensures forall f, t :: (f, t) in RewritesOf(cs) <==> exists c :: c in cs && c.fqdn == f && c.target == t
  {
    RewritesAt(cs);
    forall f, t
      ensures (f, t) in RewritesOf(cs) <==> exists c :: c in cs && c.fqdn == f && c.target == t
    {
      if (f, t) in RewritesOf(cs) {
        var i :| 0 <= i < |cs| && RewritesOf(cs)[i] == (f, t);
        assert cs[i] in cs;
      }
      if c :| c in cs && c.fqdn == f && c.target == t {
        var i :| 0 <= i < |cs| && cs[i] == c;
        assert RewritesOf(cs)[i] == (f, t);
      }
    }
  }

  lemma {:induction false} SortedCandidates(cs: seq<Candidate>)
    requires DistinctCandidates(cs)
    ensures var ordered := Sort(cs, CandidateLe);
            && Sorted(ordered, CandidateLe) && DistinctCandidates(ordered)
            && (forall c :: c in ordered <==> c in cs)
            && (forall c :: Wins(c, ordered) <==> Wins(c, cs))
  {
    CandidateOrder();
    SortSorted(cs, CandidateLe);
    assert DistinctBy(cs, KeyOf);
    SortKeepsDistinct(cs, CandidateLe, KeyOf);
    MultisetMembers(cs, Sort(cs, CandidateLe));
  }

  lemma {:induction false} RewritesSorted(cs: seq<Candidate>)
    ensures Sorted(SelectedRewrites(cs), RewriteLe)
    ensures DistinctBy(SelectedRewrites(cs), FqdnOf)
  {
    var winners := Winners(Sort(cs, CandidateLe));
    RewriteOrder();
    SortSorted(RewritesOf(winners), RewriteLe);
    WinnersDistinct(Sort(cs, CandidateLe), |cs|);
    RewritesAt(winners);
    SortKeepsDistinct(RewritesOf(winners), RewriteLe, FqdnOf);
  }

  /** In the sorted list, who is first and who wins agree. */
  lemma {:induction false} FirstsWin(cs: seq<Candidate>)
    requires DistinctCandidates(cs)
    ensures var ordered := Sort(cs, CandidateLe);
            forall i | 0 <= i < |ordered| ::
              && (IsFirst(ordered, i) <==> Wins(ordered[i], cs))
              && Wins(ordered[FirstIndex(ordered, ordered[i].fqdn)], cs)
  {
    var ordered := Sort(cs, CandidateLe);
    SortedCandidates(cs);
    forall i | 0 <= i < |ordered|
      ensures IsFirst(ordered, i) <==> Wins(ordered[i], cs)
      ensures Wins(ordered[FirstIndex(ordered, ordered[i].fqdn)], cs)
    {
      FirstWins(ordered, i);
      FirstWins(ordered, FirstIndex(ordered, ordered[i].fqdn));
    }
  }

  lemma {:induction false} WinnersWin(cs: seq<Candidate>)
    requires DistinctCandidates(cs)
    ensures forall c :: c in Winners(Sort(cs, CandidateLe)) <==> Wins(c, cs)
  {
    var ordered := Sort(cs, CandidateLe);
    SortedCandidates(cs);
    WinnersMembers(ordered, |cs|);
    FirstsWin(cs);
    forall c | Wins(c, cs)
      ensures c in Winners(ordered)
    {
      var i :| 0 <= i < |ordered| && ordered[i] == c;
    }
  }

  lemma {:induction false} RewritesRight(cs: seq<Candidate>)
    requires DistinctCandidates(cs)
    ensures forall f, t :: (f, t) in SelectedRewrites(cs) <==> exists c :: Wins(c, cs) && c.fqdn == f && c.target == t
  {
    var winners := Winners(Sort(cs, CandidateLe));
    MultisetMembers(RewritesOf(winners), SelectedRewrites(cs));
    RewritesMembers(winners);
    WinnersWin(cs);
    forall f, t
      ensures (f, t) in SelectedRewrites(cs) <==> exists c :: Wins(c, cs) && c.fqdn == f && c.target == t
    {
      assert (f, t) in SelectedRewrites(cs) <==> (f, t) in RewritesOf(winners);
    }
  }

  lemma {:induction false} DuplicatesLost(cs: seq<Candidate>)
    requires DistinctCandidates(cs)
    ensures forall d | d in SelectedDuplicates(cs) :: d.loser in cs && !Wins(d.loser, cs)
    ensures forall d | d in SelectedDuplicates(cs) :: exists c :: Wins(c, cs) && c.fqdn == d.loser.fqdn && d.winner == KeyOf(c)
  {
    var ordered := Sort(cs, CandidateLe);
    SortedCandidates(cs);
    LosersComeFrom(ordered, |cs|);
    FirstsWin(cs);
    forall d | d in SelectedDuplicates(cs)
      ensures d.loser in cs && !Wins(d.loser, cs)
      ensures exists c :: Wins(c, cs) && c.fqdn == d.loser.fqdn && d.winner == KeyOf(c)
    {
      var j :| 0 <= j < |ordered| && !IsFirst(ordered, j) && d == LoserAt(ordered, j);
      assert ordered[j] in ordered;
    }
  }

  lemma {:induction false} LosersReported(cs: seq<Candidate>, c: Candidate)
    requires DistinctCandidates(cs) && c in cs && !Wins(c, cs)
    ensures exists d :: d in SelectedDuplicates(cs) && d.loser == c
  {
    var ordered := Sort(cs, CandidateLe);
    SortedCandidates(cs);
    FirstsWin(cs);
    var j :| 0 <= j < |ordered| && ordered[j] == c;
    LosersInclude(ordered, |cs|, j);
  }

  lemma {:induction false} LosersRight(cs: seq<Candidate>)
    requires DistinctCandidates(cs)
    ensures forall c :: (exists d :: d in SelectedDuplicates(cs) && d.loser == c) <==> c in cs && !Wins(c, cs)
    ensures forall d | d in SelectedDuplicates(cs) :: exists c :: Wins(c, cs) && c.fqdn == d.loser.fqdn && d.winner == KeyOf(c)
    ensures InOrder(SelectedDuplicates(cs))
  {
    SortedCandidates(cs);
    LosersOrdered(Sort(cs, CandidateLe), |cs|);
    DuplicatesLost(cs);
    forall c | c in cs && !Wins(c, cs)
      ensures exists d :: d in SelectedDuplicates(cs) && d.loser == c
    {
      LosersReported(cs, c);
    }
  }

  /** The selection is the map from each FQDN to its least owner's proxy, and winners and
      duplicates partition the candidates. */
  lemma {:induction false} SelectionIsRight(cs: seq<Candidate>)
    requires DistinctCandidates(cs)
    ensures IsSelection(cs, SelectedRewrites(cs), SelectedDuplicates(cs))
  {
    RewritesSorted(cs);
    RewritesRight(cs);
    LosersRight(cs);
    WinnersAndLosers(Sort(cs, CandidateLe), |cs|);
    RewritesAt(Winners(Sort(cs, CandidateLe)));
    assert forall i, j :: 0 <= i < j < |SelectedRewrites(cs)| ==>
      FqdnOf(SelectedRewrites(cs)[i]) != FqdnOf(SelectedRewrites(cs)[j]);
  }

  lemma {:induction false} CandidatesAppend(a: seq<Service>, b: seq<Service>, op: Operator)
    ensures Candidates(a + b, op) == Candidates(a, op) + Candidates(b, op)
  {
    if a == [] {
      assert a + b == b;
    } else {
      assert (a + b)[1..] == a[1..] + b;
      CandidatesAppend(a[1..], b, op);
    }
  }

  lemma {:induction false} CandidatesPermute(a: seq<Service>, b: seq<Service>, op: Operator)
    requires multiset(a) == multiset(b)
    ensures multiset(Candidates(a, op)) == multiset(Candidates(b, op))
  {
    MultisetMembers(a, b);
    if a != [] {
      assert a[0] in b;
      var i :| 0 <= i < |b| && b[i] == a[0];
      var rest := b[..i] + b[i + 1..];
      assert a == [a[0]] + a[1..];
      assert b == b[..i] + [b[i]] + b[i + 1..];
      assert multiset(a[1..]) == multiset(a) - multiset{a[0]} == multiset(b) - multiset{a[0]} == multiset(rest);
      CandidatesPermute(a[1..], rest, op);
      CandidatesAppend([a[0]], a[1..], op);
      CandidatesAppend(b[..i], b[i + 1..], op);
      CandidatesAppend(b[..i] + [b[i]], b[i + 1..], op);
      CandidatesAppend(b[..i], [b[i]], op);
    }
  }

  /** The result does not depend on the order the Services are listed in. */
  lemma {:induction false} SelectionIgnoresOrder(a: seq<Service>, b: seq<Service>, op: Operator)
    requires multiset(a) == multiset(b) && DistinctCandidates(Candidates(a, op))
    ensures SelectedRewrites(Candidates(a, op)) == SelectedRewrites(Candidates(b, op))
    ensures SelectedDuplicates(Candidates(a, op)) == SelectedDuplicates(Candidates(b, op))
  {
    var x, y := Candidates(a, op), Candidates(b, op);
    CandidatesPermute(a, b, op);
    MultisetMembers(x, y);
    CandidateOrder();
    forall c, d | c in x && d in x && CandidateLe(c, d) && CandidateLe(d, c)
      ensures c == d
    {
      KeyLeTotal(KeyOf(c), KeyOf(d));
    }
    SortIgnoresOrder(x, y, CandidateLe);
  }

  // ── the selection, on the Services' own fields ──────────────────────────────

  /** An egress Service of this operator's with an FQDN, not being deleted. */
  predicate Claims(s: Service, op: Operator, fqdn: string) {
    && s.egress && !s.deleting && s.fqdn == Some(fqdn) && fqdn != ""
    && (s.targetNamespace == Some(op.ns) || (s.targetNamespace == None && op.claimDefault))
  }

  ghost predicate ComesBefore(a: Service, b: Service) {
    KeyBefore((a.ns, a.name), (b.ns, b.name))
  }

  /** Nobody who claims the FQDN comes before this Service by namespace and name. */
  ghost predicate Owns(s: Service, services: seq<Service>, op: Operator, fqdn: string) {
    && s in services && Claims(s, op, fqdn)
    && (forall t | t in services && Claims(t, op, fqdn) :: t == s || ComesBefore(s, t))
  }

  function TargetOf(s: Service, op: Operator): string {
    s.wgService + "." + op.ns + ".svc.cluster.local"
  }

  predicate DistinctServices(services: seq<Service>) {
    forall i, j :: 0 <= i < j < |services| ==> services[i].ns != services[j].ns || services[i].name != services[j].name
  }

  predicate Shows(c: Candidate, s: Service, op: Operator) {
    c.ns == s.ns && c.name == s.name && s.fqdn == Some(c.fqdn) && c.target == TargetOf(s, op)
  }

  lemma {:induction false} CandidateExactly(s: Service, op: Operator)
    ensures match CandidateOf(s, op)
            case Some(c) => Claims(s, op, c.fqdn) && Shows(c, s, op)
            case None => forall f :: !Claims(s, op, f)
  {
  }

  lemma {:induction false} CandidatesExactly(services: seq<Service>, op: Operator)
    ensures forall c | c in Candidates(services, op) :: exists s :: s in services && Claims(s, op, c.fqdn) && Shows(c, s, op)
    ensures forall s, f | s in services && Claims(s, op, f) ::
              Candidate(s.ns, s.name, f, TargetOf(s, op)) in Candidates(services, op)
  {
    if services != [] {
      CandidatesExactly(services[1..], op);
      CandidateExactly(services[0], op);
      assert services == [services[0]] + services[1..];
      hide Claims, CandidateOf;
    }
  }

  lemma {:induction false} CandidatesDistinct(services: seq<Service>, op: Operator)
    requires DistinctServices(services)
    ensures DistinctCandidates(Candidates(services, op))
  {
    if services != [] {
      var rest := Candidates(services[1..], op);
      CandidatesDistinct(services[1..], op);
      CandidatesExactly(services[1..], op);
      CandidateExactly(services[0], op);
      hide Claims, CandidateOf;
      forall j | 0 <= j < |rest|
        ensures KeyOf(rest[j]) != (services[0].ns, services[0].name)
      {
        assert rest[j] in rest;
        var s :| s in services[1..] && Claims(s, op, rest[j].fqdn) && Shows(rest[j], s, op);
        var k :| 0 <= k < |services[1..]| && services[1..][k] == s;
        assert services[k + 1] == s;
      }
    }
  }

  lemma {:induction false} SameService(services: seq<Service>, s: Service, t: Service)
    requires DistinctServices(services) && s in services && t in services && s.ns == t.ns && s.name == t.name
    ensures s == t
  {
    var i :| 0 <= i < |services| && services[i] == s;
    var j :| 0 <= j < |services| && services[j] == t;
    assert i == j;
  }

  /** The winner of an FQDN is the Service that owns it. */
  lemma {:induction false} WinsExactly(services: seq<Service>, op: Operator, s: Service, f: string)
    requires DistinctServices(services) && s in services && Claims(s, op, f)
    ensures Wins(Candidate(s.ns, s.name, f, TargetOf(s, op)), Candidates(services, op)) <==> Owns(s, services, op, f)
  {
    var cs, c := Candidates(services, op), Candidate(s.ns, s.name, f, TargetOf(s, op));
    CandidatesExactly(services, op);
    hide Claims, CandidateOf, KeyLe, KeyBefore;
    if Wins(c, cs) {
      forall t | t in services && Claims(t, op, f)
        ensures t == s || ComesBefore(s, t)
      {
        var d := Candidate(t.ns, t.name, f, TargetOf(t, op));
        assert CandidateLe(c, d);
        KeyLeIsDictionary(KeyOf(c), KeyOf(d));
        if KeyOf(c) == KeyOf(d) {
          SameService(services, s, t);
        }
      }
    }
    if Owns(s, services, op, f) {
      forall d | d in cs && d.fqdn == f
        ensures CandidateLe(c, d)
      {
        var t :| t in services && Claims(t, op, f) && Shows(d, t, op);
        KeyLeIsDictionary(KeyOf(c), KeyOf(d));
      }
    }
  }

  /** The rewrites lead each claimed FQDN to the proxy of the Service that owns it. */
  lemma {:induction false} RewritesExactly(services: seq<Service>, op: Operator, f: string, t: string)
    requires DistinctServices(services)
    ensures (f, t) in SelectedRewrites(Candidates(services, op)) <==>
            exists s :: Owns(s, services, op, f) && t == TargetOf(s, op)
  {
    var cs := Candidates(services, op);
    CandidatesDistinct(services, op);
    CandidatesExactly(services, op);
    RewritesRight(cs);
    hide Claims, CandidateOf, Candidates, SelectedRewrites;
    if c :| Wins(c, cs) && c.fqdn == f && c.target == t {
      var s :| s in services && Claims(s, op, c.fqdn) && Shows(c, s, op);
      WinsExactly(services, op, s, f);
    }
    if s :| Owns(s, services, op, f) && t == TargetOf(s, op) {
      WinsExactly(services, op, s, f);
    }
  }

  /** The report of a Service that claims an FQDN another one owns. */
  ghost predicate LosesTo(d: Duplicate, s: Service, w: Service, services: seq<Service>, op: Operator) {
    && s in services && Claims(s, op, d.loser.fqdn) && Shows(d.loser, s, op)
    && Owns(w, services, op, d.loser.fqdn) && w != s && d.winner == (w.ns, w.name)
  }

  lemma {:induction false} ReportIsDue(services: seq<Service>, op: Operator, d: Duplicate)
    requires DistinctServices(services) && d in SelectedDuplicates(Candidates(services, op))
    ensures exists s, w :: LosesTo(d, s, w, services, op)
  {
    var cs := Candidates(services, op);
    CandidatesDistinct(services, op);
    CandidatesExactly(services, op);
    DuplicatesLost(cs);
    hide Claims, CandidateOf, Candidates, SelectedDuplicates;
    var s :| s in services && Claims(s, op, d.loser.fqdn) && Shows(d.loser, s, op);
    var c :| Wins(c, cs) && c.fqdn == d.loser.fqdn && d.winner == KeyOf(c);
    var w :| w in services && Claims(w, op, c.fqdn) && Shows(c, w, op);
    WinsExactly(services, op, s, d.loser.fqdn);
    WinsExactly(services, op, w, d.loser.fqdn);
    assert LosesTo(d, s, w, services, op);
  }

  lemma {:induction false} OwnerIsUnique(services: seq<Service>, op: Operator, f: string, v: Service, w: Service)
    requires Owns(v, services, op, f) && Owns(w, services, op, f)
    ensures v == w
  {
    KeyLeIsDictionary((v.ns, v.name), (w.ns, w.name));
    KeyLeIsDictionary((w.ns, w.name), (v.ns, v.name));
    KeyLeTotal((v.ns, v.name), (w.ns, w.name));
    hide KeyLe, KeyBefore, Claims;
    if v != w {
      assert ComesBefore(v, w) && ComesBefore(w, v);
      NotBeforeItself((v.ns, v.name));
    }
  }

  lemma {:induction false} ReportIsMade(services: seq<Service>, op: Operator, d: Duplicate, s: Service, w: Service)
    requires DistinctServices(services) && LosesTo(d, s, w, services, op)
    ensures d in SelectedDuplicates(Candidates(services, op))
  {
    var cs, f := Candidates(services, op), d.loser.fqdn;
    CandidatesDistinct(services, op);
    CandidatesExactly(services, op);
    assert d.loser == Candidate(s.ns, s.name, f, TargetOf(s, op));
    WinsExactly(services, op, s, f);
    hide Claims, CandidateOf, Candidates, SelectedDuplicates;
    if Owns(s, services, op, f) {
      OwnerIsUnique(services, op, f, s, w);
    }
    LosersReported(cs, d.loser);
    var e :| e in SelectedDuplicates(cs) && e.loser == d.loser;
    ReportIsDue(services, op, e);
    var t, v :| LosesTo(e, t, v, services, op);
    OwnerIsUnique(services, op, f, v, w);
  }

  /** Every Service that claims an FQDN without owning it is reported with the one that does,
      and nobody else is reported. */
  lemma {:induction false} DuplicatesExactly(services: seq<Service>, op: Operator, d: Duplicate)
    requires DistinctServices(services)
    ensures d in SelectedDuplicates(Candidates(services, op)) <==> exists s, w :: LosesTo(d, s, w, services, op)
  {
    if d in SelectedDuplicates(Candidates(services, op)) {
      ReportIsDue(services, op, d);
    }
    if s, w :| LosesTo(d, s, w, services, op) {
      ReportIsMade(services, op, d, s, w);
    }
  }

  method CollectCandidates(services: seq<Service>, op: Operator) returns (cs: seq<Candidate>)
    ensures cs == Candidates(services, op)
  {
    cs := [];
    for k := 0 to |services|
      invariant cs + Candidates(services[k..], op) == Candidates(services, op)
    {
      assert services[k..][1..] == services[k + 1..];
      match CandidateOf(services[k], op) {
        case Some(c) => cs := cs + [c];
        case None =>
      }
    }
    assert services[|services|..] == [];
  }

  lemma {:induction false} WinnerAdded(cs: seq<Candidate>, k: nat)
    requires k < |cs| && IsFirst(cs, k)
    ensures RewritesOf(WinnersUpTo(cs, k + 1)) == RewritesOf(WinnersUpTo(cs, k)) + [(cs[k].fqdn, cs[k].target)]
  {
    var more := WinnersUpTo(cs, k) + [cs[k]];
    assert more[..|more| - 1] == WinnersUpTo(cs, k);
  }

  lemma {:induction false} FirstIndexUnique(cs: seq<Candidate>, f: string, k: nat)
    requires k < |cs|
    ensures FirstIndex(cs, f) < k + 1 <==> FirstIndex(cs, f) < k || (IsFirst(cs, k) && cs[k].fqdn == f)
  {
  }

  /** The winners on record are the first candidates of the FQDNs among the first `k`. */
  ghost predicate Recorded(winners: map<string, Key>, cs: seq<Candidate>, k: nat) {
    && (forall f :: f in winners <==> FirstIndex(cs, f) < k && k <= |cs|)
    && (forall f | f in winners :: FirstIndex(cs, f) < |cs| && winners[f] == KeyOf(cs[FirstIndex(cs, f)]))
  }

  lemma {:induction false} RecordedNext(winners: map<string, Key>, cs: seq<Candidate>, k: nat)
    requires k < |cs| && Recorded(winners, cs, k)
    ensures cs[k].fqdn in winners <==> !IsFirst(cs, k)
    ensures cs[k].fqdn in winners ==> winners[cs[k].fqdn] == KeyOf(cs[FirstIndex(cs, cs[k].fqdn)])
    ensures Recorded(if IsFirst(cs, k) then winners[cs[k].fqdn := KeyOf(cs[k])] else winners, cs, k + 1)
  {
    var next := if IsFirst(cs, k) then winners[cs[k].fqdn := KeyOf(cs[k])] else winners;
    forall f
      ensures f in next <==> FirstIndex(cs, f) < k + 1
    {
      FirstIndexUnique(cs, f, k);
    }
  }

  /** The loop: the first candidate of an FQDN gets the rewrite, later ones are reported. */
  method Select(cs: seq<Candidate>) returns (rewrites: seq<Rewrite>, dups: seq<Duplicate>)
    ensures rewrites == RewritesOf(Winners(cs))
    ensures dups == Losers(cs)
  {
    rewrites, dups := [], [];
    var winners: map<string, Key> := map[];
    for k := 0 to |cs|
      invariant Recorded(winners, cs, k)
      invariant rewrites == RewritesOf(WinnersUpTo(cs, k))
      invariant dups == LosersUpTo(cs, k)
    {
      var c := cs[k];
      RecordedNext(winners, cs, k);
      if c.fqdn in winners {
        dups := dups + [Duplicate(c, winners[c.fqdn])];
      } else {
        winners := winners[c.fqdn := KeyOf(c)];
        WinnerAdded(cs, k);
        rewrites := rewrites + [(c.fqdn, c.target)];
      }
    }
  }

  /** `collect_rewrites`. */
  method CollectRewrites(services: seq<Service>, op: Operator) returns (rewrites: seq<Rewrite>, dups: seq<Duplicate>)
    requires DistinctCandidates(Candidates(services, op))
    ensures rewrites == SelectedRewrites(Candidates(services, op))
    ensures dups == SelectedDuplicates(Candidates(services, op))
    ensures IsSelection(Candidates(services, op), rewrites, dups)
  {
    var cs := CollectCandidates(services, op);
    var selected;
    selected, dups := Select(Sort(cs, CandidateLe));
    rewrites := Sort(selected, RewriteLe);
    SelectionIsRight(cs);
  }
}
