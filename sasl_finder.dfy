/**
 * Selection of the SASL mechanism a client uses, given the names the remote
 * peer offers, the local credentials and an optional restriction set.
 *
 * `Select` is the reference definition: of the offered mechanisms that are
 * known, permitted and applicable, the one with the highest priority, the
 * last offered one among equals. `FindMatchingMechanism` is the
 * implementation (filter into a list, stable sort, take the last) and is
 * proved to compute `Select`.
 */
module SaslMechanismFinder {
  import opened Wrappers
  import opened SaslMechanisms

  /**
   * findMechanismFactory(name): the mechanism whose well-known name is exactly
   * `name`; null, empty and unknown names resolve to nothing.
   */
  function FindMechanismFactory(name: Option<string>): (r: Option<Mechanism>)
    ensures forall m: Mechanism :: r == Some(m) <==> name == Some(m.Name())
    ensures name.None? || name == Some([]) ==> r.None?
  {
    if name.None? || name.value == [] then None
    else if name.value == Plain.Name() then Some(Plain)
    else if name.value == Anonymous.Name() then Some(Anonymous)
    else if name.value == External.Name() then Some(External)
    else None
  }

  /** Whether the restriction set lets `name` through: a null or empty set restricts nothing. */
  function Permitted(restrictions: Option<set<string>>, name: string): (ok: bool)
    ensures restrictions.None? ==> ok
    ensures restrictions == Some({}) ==> ok
    ensures restrictions.Some? && restrictions.value != {} ==> (ok <==> name in restrictions.value)
  {
    restrictions.None? || restrictions.value == {} || name in restrictions.value
  }

  /** What one offered name adds to the found list: its mechanism, when known, permitted and applicable. */
  function Qualify(caps: Capabilities, creds: Credentials, restrictions: Option<set<string>>,
                   name: Option<string>): (r: Option<Mechanism>)
    ensures r.Some? ==> name == Some(r.value.Name())
    ensures r.Some? ==> Permitted(restrictions, r.value.Name()) && IsApplicable(caps, r.value, creds)
    ensures forall m: Mechanism ::
      name == Some(m.Name()) && Permitted(restrictions, m.Name()) && IsApplicable(caps, m, creds) ==> r == Some(m)
  {
    match FindMechanismFactory(name)
    case None => None
    case Some(m) => if Permitted(restrictions, name.value) && IsApplicable(caps, m, creds) then Some(m) else None
  }

  /** The found list: the qualifying mechanisms in offer order. */
  function Candidates(caps: Capabilities, creds: Credentials, restrictions: Option<set<string>>,
                      remote: seq<Option<string>>): (found: seq<Mechanism>)
    ensures |found| <= |remote|
  {
    if remote == [] then []
    else
      var found := Candidates(caps, creds, restrictions, remote[..|remote| - 1]);
      match Qualify(caps, creds, restrictions, remote[|remote| - 1])
      case None => found
      case Some(m) => found + [m]
  }

  /** A candidate was offered: some offered name qualifies as it. */
  lemma {:induction false} CandidateWasOffered(caps: Capabilities, creds: Credentials,
                                               restrictions: Option<set<string>>,
                                               remote: seq<Option<string>>, m: Mechanism) returns (i: int)
    requires m in Candidates(caps, creds, restrictions, remote)
    ensures 0 <= i < |remote| && Qualify(caps, creds, restrictions, remote[i]) == Some(m)
  {
    var init, last := remote[..|remote| - 1], remote[|remote| - 1];
    if m in Candidates(caps, creds, restrictions, init) {
      i := CandidateWasOffered(caps, creds, restrictions, init, m);
      assert remote[i] == init[i];
    } else {
      i := |remote| - 1;
    }
  }

  /** Every offered name that qualifies contributes its mechanism to the candidates. */
  lemma {:induction false} OfferedIsCandidate(caps: Capabilities, creds: Credentials,
                                              restrictions: Option<set<string>>,
                                              remote: seq<Option<string>>, i: int, m: Mechanism)
    requires 0 <= i < |remote| && Qualify(caps, creds, restrictions, remote[i]) == Some(m)
    ensures m in Candidates(caps, creds, restrictions, remote)
  {
    var init, last := remote[..|remote| - 1], remote[|remote| - 1];
    var found := Candidates(caps, creds, restrictions, init);
    if i < |init| {
      assert init[i] == remote[i];
      OfferedIsCandidate(caps, creds, restrictions, init, i, m);
      match Qualify(caps, creds, restrictions, last)
      case None =>
      case Some(x) => assert (found + [x])[..|found|] == found;
    }
  }

  /** A mechanism is a candidate exactly when some offered name qualifies as it. */
  lemma CandidatesMembers(caps: Capabilities, creds: Credentials, restrictions: Option<set<string>>,
                          remote: seq<Option<string>>, m: Mechanism)
    ensures m in Candidates(caps, creds, restrictions, remote) <==>
      exists i :: 0 <= i < |remote| && Qualify(caps, creds, restrictions, remote[i]) == Some(m)
  {
    if m in Candidates(caps, creds, restrictions, remote) {
      var i := CandidateWasOffered(caps, creds, restrictions, remote, m);
    }
    forall i | 0 <= i < |remote| && Qualify(caps, creds, restrictions, remote[i]) == Some(m)
      ensures m in Candidates(caps, creds, restrictions, remote)
    {
      OfferedIsCandidate(caps, creds, restrictions, remote, i, m);
    }
  }

  /** The found list of a concatenated offer is the concatenation of the found lists. */
  lemma {:induction false} CandidatesAppend(caps: Capabilities, creds: Credentials,
                                            restrictions: Option<set<string>>,
                                            a: seq<Option<string>>, b: seq<Option<string>>)
    ensures Candidates(caps, creds, restrictions, a + b) ==
      Candidates(caps, creds, restrictions, a) + Candidates(caps, creds, restrictions, b)
  {
    if b == [] {
      assert a + b == a;
    } else {
      var init, last := b[..|b| - 1], b[|b| - 1];
      SplitLast(b);
      Associative(a, init, [last]);
      CandidatesAppend(caps, creds, restrictions, a, init);
      CandidatesSnoc(caps, creds, restrictions, a + init, last);
      CandidatesSnoc(caps, creds, restrictions, init, last);
      var left, middle := Candidates(caps, creds, restrictions, a), Candidates(caps, creds, restrictions, init);
      match Qualify(caps, creds, restrictions, last)
      case None =>
      case Some(m) =>
        Associative(left, middle, [m]);
    }
  }

  /** Concatenation is associative. */
  lemma Associative<T>(x: seq<T>, y: seq<T>, z: seq<T>)
    ensures (x + y) + z == x + (y + z)
  {
  }

  /** Offering one more name extends the found list by what that name qualifies as. */
  lemma CandidatesSnoc(caps: Capabilities, creds: Credentials, restrictions: Option<set<string>>,
                       init: seq<Option<string>>, name: Option<string>)
    ensures Candidates(caps, creds, restrictions, init + [name]) ==
      match Qualify(caps, creds, restrictions, name)
      case None => Candidates(caps, creds, restrictions, init)
      case Some(m) => Candidates(caps, creds, restrictions, init) + [m]
  {
    var remote := init + [name];
    assert remote[..|remote| - 1] == init && remote[|remote| - 1] == name;
  }

  /** The priority-maximal mechanism of `s`, the last one among equals; nothing for an empty list. */
  function BestOf(caps: Capabilities, s: seq<Mechanism>): (r: Option<Mechanism>)
    ensures r.None? <==> s == []
    ensures r.Some? ==> r.value in s
    ensures r.Some? ==> forall x :: x in s ==> GetPriority(caps, x) <= GetPriority(caps, r.value)
  {
    if s == [] then None
    else
      var best := BestOf(caps, s[..|s| - 1]);
      var last := s[|s| - 1];
      assert s == s[..|s| - 1] + [last];
      if best.None? || GetPriority(caps, best.value) <= GetPriority(caps, last) then Some(last) else best
  }

  /** The tie-break: what BestOf picks sits at an index followed only by mechanisms of strictly lower priority. */
  lemma {:induction false} BestOfIsLastOfMaximal(caps: Capabilities, s: seq<Mechanism>) returns (i: int)
    requires s != []
    ensures 0 <= i < |s| && BestOf(caps, s) == Some(s[i])
    ensures forall j :: i < j < |s| ==> GetPriority(caps, s[j]) < GetPriority(caps, s[i])
  {
    var init, last := s[..|s| - 1], s[|s| - 1];
    var best := BestOf(caps, init);
    if best.None? || GetPriority(caps, best.value) <= GetPriority(caps, last) {
      i := |s| - 1;
    } else {
      i := BestOfIsLastOfMaximal(caps, init);
      assert s[i] == init[i];
      forall j | i < j < |s|
        ensures GetPriority(caps, s[j]) < GetPriority(caps, s[i])
      {
        if j < |init| {
          assert s[j] == init[j];
        }
      }
    }
  }

  /** BestOf is determined by its specification: the maximal element that only lower ones follow. */
  lemma BestOfUnique(caps: Capabilities, s: seq<Mechanism>, i: int)
    requires 0 <= i < |s|
    requires forall j :: 0 <= j < |s| ==> GetPriority(caps, s[j]) <= GetPriority(caps, s[i])
    requires forall j :: i < j < |s| ==> GetPriority(caps, s[j]) < GetPriority(caps, s[i])
    ensures BestOf(caps, s) == Some(s[i])
  {
    var k := BestOfIsLastOfMaximal(caps, s);
    assert s[k] in s;
  }

  /** Mechanisms sorted by ascending priority. */
  ghost predicate SortedByPriority(caps: Capabilities, s: seq<Mechanism>)
  {
    forall i, j :: 0 <= i < j < |s| ==> GetPriority(caps, s[i]) <= GetPriority(caps, s[j])
  }

  /** Inserts `m` after every element of no greater priority: one step of a stable sort. */
  function Insert(caps: Capabilities, s: seq<Mechanism>, m: Mechanism): (r: seq<Mechanism>)
    ensures |r| == |s| + 1
  {
    if s == [] then [m]
    else if CompareTo(caps, s[0], m) > 0 then [m] + s
    else [s[0]] + Insert(caps, s[1..], m)
  }

  /** Inserting rearranges: the result holds the elements of `s` and `m`, each as often. */
  lemma {:induction false} InsertPermutes(caps: Capabilities, s: seq<Mechanism>, m: Mechanism)
    ensures multiset(Insert(caps, s, m)) == multiset(s) + multiset{m}
  {
    if s != [] && CompareTo(caps, s[0], m) <= 0 {
      assert s == [s[0]] + s[1..];
      InsertPermutes(caps, s[1..], m);
    }
  }

  /** Inserting adds `m` and nothing else. */
  lemma InsertMembers(caps: Capabilities, s: seq<Mechanism>, m: Mechanism)
    ensures forall x :: x in Insert(caps, s, m) ==> x in s || x == m
  {
    var r := Insert(caps, s, m);
    InsertPermutes(caps, s, m);
    forall x | x in r ensures x in s || x == m {
      assert x in multiset(r);
    }
  }

  /** A sorted list stays sorted when an element ranked no higher than all of it goes in front. */
  lemma SortedCons(caps: Capabilities, x: Mechanism, s: seq<Mechanism>)
    requires SortedByPriority(caps, s)
    requires forall y :: y in s ==> GetPriority(caps, x) <= GetPriority(caps, y)
    ensures SortedByPriority(caps, [x] + s)
  {
    var r := [x] + s;
    forall i, j | 0 <= i < j < |r|
      ensures GetPriority(caps, r[i]) <= GetPriority(caps, r[j])
    {
      assert r[j] == s[j - 1];
      if i > 0 {
        assert r[i] == s[i - 1];
      }
    }
  }

  /** Inserting into a sorted list keeps it sorted. */
  lemma {:induction false} InsertSorted(caps: Capabilities, s: seq<Mechanism>, m: Mechanism)
    requires SortedByPriority(caps, s)
    ensures SortedByPriority(caps, Insert(caps, s, m))
  {
    if s == [] {
    } else if CompareTo(caps, s[0], m) > 0 {
      SortedHeadIsLeast(caps, s);
      SortedCons(caps, m, s);
    } else {
      var rest := Insert(caps, s[1..], m);
      SortedHeadIsLeast(caps, s);
      InsertSorted(caps, s[1..], m);
      InsertMembers(caps, s[1..], m);
      assert forall y :: y in s[1..] ==> y in s;
      SortedCons(caps, s[0], rest);
    }
  }

  /**
   * Collections.sort on the found list: ascending by compareTo and stable,
   * modelled as insertion sort.
   */
  function SortByPriority(caps: Capabilities, s: seq<Mechanism>): (r: seq<Mechanism>)
    ensures |r| == |s|
    ensures SortedByPriority(caps, r)
  {
    if s == [] then []
    else
      var sorted := SortByPriority(caps, s[..|s| - 1]);
      InsertSorted(caps, sorted, s[|s| - 1]);
      Insert(caps, sorted, s[|s| - 1])
  }

  /** The sort rearranges: the result holds the elements of `s`, each as often. */
  lemma {:induction false} SortPermutes(caps: Capabilities, s: seq<Mechanism>)
    ensures multiset(SortByPriority(caps, s)) == multiset(s)
  {
    if s != [] {
      var init, last := s[..|s| - 1], s[|s| - 1];
      assert s == init + [last];
      SortPermutes(caps, init);
      InsertPermutes(caps, SortByPriority(caps, init), last);
    }
  }

  /** The last element after an insertion into a sorted list. */
  lemma {:induction false} InsertLast(caps: Capabilities, s: seq<Mechanism>, m: Mechanism)
    requires SortedByPriority(caps, s) && s != []
    ensures GetPriority(caps, s[|s| - 1]) <= GetPriority(caps, m) ==> Insert(caps, s, m)[|s|] == m
    ensures GetPriority(caps, s[|s| - 1]) > GetPriority(caps, m) ==> Insert(caps, s, m)[|s|] == s[|s| - 1]
    decreases |s|, 1
  {
    SortedHeadIsLeast(caps, s);
    if CompareTo(caps, s[0], m) > 0 {
      assert Insert(caps, s, m) == [m] + s;
      assert ([m] + s)[|s|] == s[|s| - 1];
      assert s[|s| - 1] in s;
    } else {
      InsertLastBehind(caps, s, m);
    }
  }

  /** InsertLast when `m` goes behind the first element. */
  lemma {:induction false} InsertLastBehind(caps: Capabilities, s: seq<Mechanism>, m: Mechanism)
    requires s != [] && CompareTo(caps, s[0], m) <= 0 && SortedByPriority(caps, s[1..])
    ensures GetPriority(caps, s[|s| - 1]) <= GetPriority(caps, m) ==> Insert(caps, s, m)[|s|] == m
    ensures GetPriority(caps, s[|s| - 1]) > GetPriority(caps, m) ==> Insert(caps, s, m)[|s|] == s[|s| - 1]
    decreases |s|, 0
  {
    var tail := s[1..];
    var rest := Insert(caps, tail, m);
    assert Insert(caps, s, m) == [s[0]] + rest;
    assert Insert(caps, s, m)[|s|] == rest[|tail|];
    if tail == [] {
      assert rest == [m];
    } else {
      assert tail[|tail| - 1] == s[|s| - 1];
      InsertLast(caps, tail, m);
    }
  }

  /** Taking the last of the sorted list picks BestOf: stability makes the last offered of equals win. */
  lemma {:induction false} SortedLastIsBest(caps: Capabilities, s: seq<Mechanism>)
    requires s != []
    ensures |SortByPriority(caps, s)| == |s|
    ensures BestOf(caps, s) == Some(SortByPriority(caps, s)[|s| - 1])
  {
    var init := s[..|s| - 1];
    if init != [] {
      SortedLastIsBest(caps, init);
      InsertLast(caps, SortByPriority(caps, init), s[|s| - 1]);
    }
  }

  /** The elements of `s` with priority `p`, in order. */
  function AtPriority(caps: Capabilities, s: seq<Mechanism>, p: int): seq<Mechanism>
  {
    if s == [] then []
    else (if GetPriority(caps, s[0]) == p then [s[0]] else []) + AtPriority(caps, s[1..], p)
  }

  lemma {:induction false} AtPriorityAppend(caps: Capabilities, a: seq<Mechanism>, b: seq<Mechanism>, p: int)
    ensures AtPriority(caps, a + b, p) == AtPriority(caps, a, p) + AtPriority(caps, b, p)
  {
    if a == [] {
      assert a + b == b;
    } else {
      assert (a + b)[1..] == a[1..] + b;
      AtPriorityAppend(caps, a[1..], b, p);
    }
  }

  lemma {:induction false} AtPriorityNone(caps: Capabilities, s: seq<Mechanism>, p: int)
    requires forall x :: x in s ==> GetPriority(caps, x) > p
    ensures AtPriority(caps, s, p) == []
  {
    if s != [] {
      assert s[0] in s;
      assert forall x :: x in s[1..] ==> x in s;
      AtPriorityNone(caps, s[1..], p);
    }
  }

  /** In a sorted list every element ranks at least as high as the first. */
  lemma SortedHeadIsLeast(caps: Capabilities, s: seq<Mechanism>)
    requires SortedByPriority(caps, s) && s != []
    ensures SortedByPriority(caps, s[1..])
    ensures forall x :: x in s ==> GetPriority(caps, s[0]) <= GetPriority(caps, x)
  {
    forall x | x in s ensures GetPriority(caps, s[0]) <= GetPriority(caps, x) {
      var k :| 0 <= k < |s| && s[k] == x;
    }
  }

  /** Inserting into a sorted list puts `m` after every element of its own priority. */
  lemma {:induction false} InsertStable(caps: Capabilities, s: seq<Mechanism>, m: Mechanism, p: int)
    requires SortedByPriority(caps, s)
    ensures AtPriority(caps, Insert(caps, s, m), p) == AtPriority(caps, s, p) + AtPriority(caps, [m], p)
    decreases |s|, 1
  {
    if s == [] {
      assert [m] == [] + [m];
    } else if CompareTo(caps, s[0], m) > 0 {
      SortedHeadIsLeast(caps, s);
      InsertStableFront(caps, s, m, p);
    } else {
      SortedHeadIsLeast(caps, s);
      InsertStableBehind(caps, s, m, p);
    }
  }

  /** InsertStable when `m` goes in front: every element of `s` ranks strictly higher than `m`. */
  lemma InsertStableFront(caps: Capabilities, s: seq<Mechanism>, m: Mechanism, p: int)
    requires s != [] && CompareTo(caps, s[0], m) > 0
    requires forall x :: x in s ==> GetPriority(caps, s[0]) <= GetPriority(caps, x)
    ensures AtPriority(caps, Insert(caps, s, m), p) == AtPriority(caps, s, p) + AtPriority(caps, [m], p)
  {
    assert Insert(caps, s, m) == [m] + s;
    AtPriorityAppend(caps, [m], s, p);
    if GetPriority(caps, m) == p {
      AtPriorityNone(caps, s, p);
    } else {
      assert [m][1..] == [];
      assert AtPriority(caps, [m], p) == [];
    }
  }

  /** InsertStable when `m` goes behind the first element. */
  lemma {:induction false} InsertStableBehind(caps: Capabilities, s: seq<Mechanism>, m: Mechanism, p: int)
    requires s != [] && CompareTo(caps, s[0], m) <= 0 && SortedByPriority(caps, s[1..])
    ensures AtPriority(caps, Insert(caps, s, m), p) == AtPriority(caps, s, p) + AtPriority(caps, [m], p)
    decreases |s|, 0
  {
    var head, tail, own := [s[0]], s[1..], AtPriority(caps, [m], p);
    assert head + tail == s;
    calc {
      AtPriority(caps, Insert(caps, s, m), p);
      AtPriority(caps, head + Insert(caps, tail, m), p);
      { AtPriorityAppend(caps, head, Insert(caps, tail, m), p); }
      AtPriority(caps, head, p) + AtPriority(caps, Insert(caps, tail, m), p);
      { InsertStable(caps, tail, m, p); }
      AtPriority(caps, head, p) + (AtPriority(caps, tail, p) + own);
      (AtPriority(caps, head, p) + AtPriority(caps, tail, p)) + own;
      { AtPriorityAppend(caps, head, tail, p); }
      AtPriority(caps, s, p) + own;
    }
  }

  /** The sort is stable: at every priority, the elements keep their relative order. */
  lemma {:induction false} SortIsStable(caps: Capabilities, s: seq<Mechanism>, p: int)
    ensures AtPriority(caps, SortByPriority(caps, s), p) == AtPriority(caps, s, p)
  {
    if s != [] {
      var init, last := s[..|s| - 1], s[|s| - 1];
      var sortedInit := SortByPriority(caps, init);
      assert s == init + [last];
      assert SortByPriority(caps, s) == Insert(caps, sortedInit, last);
      AtPriorityAppend(caps, init, [last], p);
      SortIsStable(caps, init, p);
      InsertStable(caps, sortedInit, last, p);
    }
  }

  /** The mechanism the client should use, by the reference definition. */
  function Select(caps: Capabilities, creds: Credentials, restrictions: Option<set<string>>,
                  remote: seq<Option<string>>): Option<Mechanism>
  {
    BestOf(caps, Candidates(caps, creds, restrictions, remote))
  }

  /**
   * findMatchingMechanism(username, password, localPrincipal, mechRestrictions, remoteMechanisms...):
   * collects the qualifying mechanisms in offer order, sorts them by priority
   * and returns the last one, or nothing when none qualifies.
   */
  method FindMatchingMechanism(caps: Capabilities, creds: Credentials, restrictions: Option<set<string>>,
                               remote: seq<Option<string>>) returns (match_: Option<Mechanism>)
    ensures match_ == Select(caps, creds, restrictions, remote)
  {
    match_ := None;
    var found: seq<Mechanism> := [];
    for i := 0 to |remote|
      invariant found == Candidates(caps, creds, restrictions, remote[..i])
    {
      assert remote[..i + 1][..i] == remote[..i];
      var factory := FindMechanismFactory(remote[i]);
      if factory.Some? {
        var mech := factory.value;
        if restrictions.Some? && restrictions.value != {} && remote[i].value !in restrictions.value {
          // skipped: not in the configured restriction set
        } else if IsApplicable(caps, mech, creds) {
          found := found + [mech];
        }
      }
    }
    assert remote[..|remote|] == remote;
    if found != [] {
      SortedLastIsBest(caps, found);
      found := SortByPriority(caps, found);
      match_ := Some(found[|found| - 1]);
    }
  }

  /** Nothing is selected exactly when no offered name is known, permitted and applicable. */
  lemma SelectNoneIff(caps: Capabilities, creds: Credentials, restrictions: Option<set<string>>,
                      remote: seq<Option<string>>)
    ensures Select(caps, creds, restrictions, remote).None? <==>
      forall i :: 0 <= i < |remote| ==> Qualify(caps, creds, restrictions, remote[i]).None?
  {
    var found := Candidates(caps, creds, restrictions, remote);
    if found != [] {
      CandidatesMembers(caps, creds, restrictions, remote, found[0]);
    } else {
      forall i | 0 <= i < |remote|
        ensures Qualify(caps, creds, restrictions, remote[i]).None?
      {
        var q := Qualify(caps, creds, restrictions, remote[i]);
        if q.Some? {
          CandidatesMembers(caps, creds, restrictions, remote, q.value);
        }
      }
    }
  }

  /** An empty offer selects nothing. */
  lemma EmptyOfferSelectsNothing(caps: Capabilities, creds: Credentials, restrictions: Option<set<string>>)
    ensures Select(caps, creds, restrictions, []) == None
  {
  }

  /**
   * A name that does not qualify (null, empty, unknown, outside the restriction
   * set, or inapplicable) is skipped wherever it is offered.
   */
  lemma SkippedNameIsIgnored(caps: Capabilities, creds: Credentials, restrictions: Option<set<string>>,
                             a: seq<Option<string>>, name: Option<string>, b: seq<Option<string>>)
    requires Qualify(caps, creds, restrictions, name).None?
    ensures Select(caps, creds, restrictions, a + [name] + b) == Select(caps, creds, restrictions, a + b)
  {
    CandidatesAppend(caps, creds, restrictions, a + [name], b);
    CandidatesAppend(caps, creds, restrictions, a, [name]);
    CandidatesAppend(caps, creds, restrictions, a, b);
    assert [name][..0] == [];
  }

  /** A name other than PLAIN, ANONYMOUS and EXTERNAL never qualifies. */
  lemma UnknownNameNeverQualifies(caps: Capabilities, creds: Credentials, restrictions: Option<set<string>>,
                                  name: Option<string>)
    requires forall m: Mechanism :: name != Some(m.Name())
    ensures FindMechanismFactory(name).None?
    ensures Qualify(caps, creds, restrictions, name).None?
  {
  }

  /** What is selected was offered by the remote peer, under its own name. */
  lemma SelectWasOffered(caps: Capabilities, creds: Credentials, restrictions: Option<set<string>>,
                         remote: seq<Option<string>>, m: Mechanism)
    requires Select(caps, creds, restrictions, remote) == Some(m)
    ensures Some(m.Name()) in remote
  {
    CandidatesMembers(caps, creds, restrictions, remote, m);
  }

  /** What is selected is applicable to the given credentials. */
  lemma SelectIsApplicable(caps: Capabilities, creds: Credentials, restrictions: Option<set<string>>,
                           remote: seq<Option<string>>, m: Mechanism)
    requires Select(caps, creds, restrictions, remote) == Some(m)
    ensures IsApplicable(caps, m, creds)
  {
    CandidatesMembers(caps, creds, restrictions, remote, m);
  }

  /** With a non-empty restriction set, what is selected is named in it, whatever the credentials. */
  lemma SelectRespectsRestrictions(caps: Capabilities, creds: Credentials, restrictions: set<string>,
                                   remote: seq<Option<string>>, m: Mechanism)
    requires restrictions != {}
    requires Select(caps, creds, Some(restrictions), remote) == Some(m)
    ensures m.Name() in restrictions
  {
    CandidatesMembers(caps, creds, Some(restrictions), remote, m);
  }

  /** A null or an empty restriction set filters nothing: both select as if there were no restriction. */
  lemma {:induction false} EmptyRestrictionsFilterNothing(caps: Capabilities, creds: Credentials,
                                                          remote: seq<Option<string>>)
    ensures Candidates(caps, creds, Some({}), remote) == Candidates(caps, creds, None, remote)
    ensures Select(caps, creds, Some({}), remote) == Select(caps, creds, None, remote)
  {
    if remote != [] {
      EmptyRestrictionsFilterNothing(caps, creds, remote[..|remote| - 1]);
    }
  }

  /** Without restriction, every offered mechanism that is applicable is a candidate. */
  lemma UnrestrictedCandidates(caps: Capabilities, creds: Credentials, remote: seq<Option<string>>,
                               i: int, m: Mechanism)
    requires 0 <= i < |remote| && remote[i] == Some(m.Name()) && IsApplicable(caps, m, creds)
    ensures m in Candidates(caps, creds, None, remote)
  {
    CandidatesMembers(caps, creds, None, remote, m);
  }

  /** What is selected has a priority no lower than that of any qualifying offered mechanism. */
  lemma SelectIsMaximal(caps: Capabilities, creds: Credentials, restrictions: Option<set<string>>,
                        remote: seq<Option<string>>, m: Mechanism, i: int)
    requires Select(caps, creds, restrictions, remote) == Some(m)
    requires 0 <= i < |remote| && Qualify(caps, creds, restrictions, remote[i]).Some?
    ensures GetPriority(caps, Qualify(caps, creds, restrictions, remote[i]).value) <= GetPriority(caps, m)
  {
    CandidatesMembers(caps, creds, restrictions, remote, Qualify(caps, creds, restrictions, remote[i]).value);
  }

  /**
   * Offering one more name: it is selected when it qualifies with a priority no
   * lower than that of the earlier pick; otherwise the earlier pick stands.
   */
  lemma SelectSnoc(caps: Capabilities, creds: Credentials, restrictions: Option<set<string>>,
                   init: seq<Option<string>>, name: Option<string>)
    ensures Select(caps, creds, restrictions, init + [name]) ==
      var q := Qualify(caps, creds, restrictions, name);
      var before := Select(caps, creds, restrictions, init);
      if q.Some? && (before.None? || GetPriority(caps, before.value) <= GetPriority(caps, q.value)) then q
      else before
  {
    var remote := init + [name];
    assert remote[..|remote| - 1] == init && remote[|remote| - 1] == name;
    var found := Candidates(caps, creds, restrictions, init);
    var q := Qualify(caps, creds, restrictions, name);
    if q.Some? {
      var s := found + [q.value];
      assert s[..|s| - 1] == found && s[|s| - 1] == q.value;
    }
  }

  /**
   * Among qualifying mechanisms of the top priority, the last one offered is
   * selected: it was offered at index `i`, and every later qualifying offer has
   * strictly lower priority.
   */
  lemma {:induction false} SelectTieBreak(caps: Capabilities, creds: Credentials, restrictions: Option<set<string>>,
                                          remote: seq<Option<string>>, m: Mechanism) returns (i: int)
    requires Select(caps, creds, restrictions, remote) == Some(m)
    ensures 0 <= i < |remote| && Qualify(caps, creds, restrictions, remote[i]) == Some(m)
    ensures forall j :: i < j < |remote| && Qualify(caps, creds, restrictions, remote[j]).Some? ==>
              GetPriority(caps, Qualify(caps, creds, restrictions, remote[j]).value) < GetPriority(caps, m)
  {
    assert m in Candidates(caps, creds, restrictions, remote);
    var offeredAt := CandidateWasOffered(caps, creds, restrictions, remote, m);
    var init, name := remote[..|remote| - 1], remote[|remote| - 1];
    SplitLast(remote);
    SelectSnoc(caps, creds, restrictions, init, name);
    var q := Qualify(caps, creds, restrictions, name);
    var before := Select(caps, creds, restrictions, init);
    if q.Some? && (before.None? || GetPriority(caps, before.value) <= GetPriority(caps, q.value)) {
      i := |remote| - 1;
    } else {
      assert before == Some(m);
      i := SelectTieBreak(caps, creds, restrictions, init, m);
      TieBreakExtend(caps, creds, restrictions, init, name, m, i);
    }
  }

  /** A non-empty offer is its prefix followed by its last name. */
  lemma SplitLast(remote: seq<Option<string>>)
    requires remote != []
    ensures remote == remote[..|remote| - 1] + [remote[|remote| - 1]]
  {
  }

  /** The tie-break position survives one more offered name that qualifies only below `m`. */
  lemma TieBreakExtend(caps: Capabilities, creds: Credentials, restrictions: Option<set<string>>,
                       init: seq<Option<string>>, name: Option<string>, m: Mechanism, i: int)
    requires 0 <= i < |init| && Qualify(caps, creds, restrictions, init[i]) == Some(m)
    requires forall j :: i < j < |init| && Qualify(caps, creds, restrictions, init[j]).Some? ==>
               GetPriority(caps, Qualify(caps, creds, restrictions, init[j]).value) < GetPriority(caps, m)
    requires Qualify(caps, creds, restrictions, name).Some? ==>
               GetPriority(caps, Qualify(caps, creds, restrictions, name).value) < GetPriority(caps, m)
    ensures Qualify(caps, creds, restrictions, (init + [name])[i]) == Some(m)
    ensures forall j :: i < j < |init + [name]| && Qualify(caps, creds, restrictions, (init + [name])[j]).Some? ==>
              GetPriority(caps, Qualify(caps, creds, restrictions, (init + [name])[j]).value) < GetPriority(caps, m)
  {
    var remote := init + [name];
    assert remote[i] == init[i];
    forall j | i < j < |remote| && Qualify(caps, creds, restrictions, remote[j]).Some?
      ensures GetPriority(caps, Qualify(caps, creds, restrictions, remote[j]).value) < GetPriority(caps, m)
    {
      if j < |init| {
        assert remote[j] == init[j];
      } else {
        assert remote[j] == name;
      }
    }
  }

  /** Two offers with the same names yield candidate lists with the same members. */
  lemma SameOfferedNamesSameCandidates(caps: Capabilities, creds: Credentials, restrictions: Option<set<string>>,
                                       remote: seq<Option<string>>, reordered: seq<Option<string>>, x: Mechanism)
    requires forall n :: n in remote <==> n in reordered
    ensures x in Candidates(caps, creds, restrictions, remote) <==> x in Candidates(caps, creds, restrictions, reordered)
  {
    CandidatesMembers(caps, creds, restrictions, remote, x);
    CandidatesMembers(caps, creds, restrictions, reordered, x);
    if x in Candidates(caps, creds, restrictions, remote) {
      var i :| 0 <= i < |remote| && Qualify(caps, creds, restrictions, remote[i]) == Some(x);
      assert remote[i] in reordered;
    }
    if x in Candidates(caps, creds, restrictions, reordered) {
      var j :| 0 <= j < |reordered| && Qualify(caps, creds, restrictions, reordered[j]) == Some(x);
      assert reordered[j] in remote;
    }
  }

  /** BestOf depends only on the members of the list when no two members share a priority. */
  lemma BestOfSameMembers(caps: Capabilities, s: seq<Mechanism>, t: seq<Mechanism>)
    requires forall x :: x in s <==> x in t
    requires forall x, y :: x in s && y in s && x != y ==> GetPriority(caps, x) != GetPriority(caps, y)
    ensures BestOf(caps, s) == BestOf(caps, t)
  {
    if s != [] {
      assert s[0] in t;
    }
  }

  /**
   * When qualifying mechanisms of equal priority are the same mechanism, the
   * order (and repetition) of the offered names does not change what is selected.
   */
  lemma SelectIgnoresOfferOrder(caps: Capabilities, creds: Credentials, restrictions: Option<set<string>>,
                                remote: seq<Option<string>>, reordered: seq<Option<string>>)
    requires forall n :: n in remote <==> n in reordered
    requires forall x, y ::
               (x in Candidates(caps, creds, restrictions, remote) && y in Candidates(caps, creds, restrictions, remote) &&
                x != y) ==> GetPriority(caps, x) != GetPriority(caps, y)
    ensures Select(caps, creds, restrictions, remote) == Select(caps, creds, restrictions, reordered)
  {
    forall x: Mechanism
      ensures x in Candidates(caps, creds, restrictions, remote) <==> x in Candidates(caps, creds, restrictions, reordered)
    {
      SameOfferedNamesSameCandidates(caps, creds, restrictions, remote, reordered, x);
    }
    BestOfSameMembers(caps, Candidates(caps, creds, restrictions, remote), Candidates(caps, creds, restrictions, reordered));
  }

  /** PLAIN wins over ANONYMOUS when both are offered and applicable and PLAIN ranks higher. */
  lemma PlainPreferredOverAnonymous(caps: Capabilities, creds: Credentials)
    requires GetPriority(caps, Plain) > GetPriority(caps, Anonymous)
    requires IsApplicable(caps, Plain, creds) && IsApplicable(caps, Anonymous, creds)
    ensures Select(caps, creds, None, [Some("PLAIN"), Some("ANONYMOUS")]) == Some(Plain)
  {
    var remote := [Some("PLAIN"), Some("ANONYMOUS")];
    assert remote[..1] == [Some("PLAIN")];
    assert Candidates(caps, creds, None, remote) == [Plain, Anonymous];
  }

  /** An offer of PLAIN alone selects nothing when PLAIN is not applicable (no username and password). */
  lemma InapplicablePlainSelectsNothing(caps: Capabilities, creds: Credentials,
                                        restrictions: Option<set<string>>)
    requires !IsApplicable(caps, Plain, creds)
    ensures Select(caps, creds, restrictions, [Some("PLAIN")]) == None
  {
    var remote := [Some("PLAIN")];
    assert remote[..0] == [];
  }

  /** The restriction set {ANONYMOUS} filters PLAIN out before its applicability is considered. */
  lemma RestrictionSelectsAnonymous(caps: Capabilities, creds: Credentials)
    requires IsApplicable(caps, Anonymous, creds)
    ensures Select(caps, creds, Some({"ANONYMOUS"}), [Some("PLAIN"), Some("ANONYMOUS")]) == Some(Anonymous)
  {
    var remote := [Some("PLAIN"), Some("ANONYMOUS")];
    assert remote[..1] == [Some("PLAIN")];
    assert "PLAIN" !in {"ANONYMOUS"};
    assert Candidates(caps, creds, Some({"ANONYMOUS"}), remote) == [Anonymous];
  }
}
