/** The candidates of a batch, and their classification before the Merkle tree is built. */
module Candidates {
  import opened Sorting
  import opened Requests
  import opened Anchors

  class Candidate {
    const streamId: StreamId
    const request: Request
    var alreadyAnchored: bool

    constructor (streamId: StreamId, request: Request)
      ensures this.streamId == streamId && this.request == request && !alreadyAnchored
    {
      this.streamId := streamId;
      this.request := request;
      alreadyAnchored := false;
    }

    predicate ShouldAnchor()
      reads this
    {
      !alreadyAnchored
    }

    method MarkAsAnchored()
      modifies this
      ensures !ShouldAnchor()
    {
      alreadyAnchored := true;
    }
  }

  function RequestsOf(candidates: seq<Candidate>): (requests: seq<Request>)
    ensures |requests| == |candidates|
    ensures forall i | 0 <= i < |candidates| :: requests[i] == candidates[i].request
  {
    seq(|candidates|, i requires 0 <= i < |candidates| => candidates[i].request)
  }

  function Timestamp(r: Request): int {
    r.timestamp
  }

  function CandidateTimestamp(c: Candidate): int {
    c.request.timestamp
  }

  // ----- Building -----

  lemma {:induction false} InsertCommutes(s: seq<Candidate>, x: Candidate)
    ensures RequestsOf(InsertByKey(s, x, CandidateTimestamp)) == InsertByKey(RequestsOf(s), x.request, Timestamp)
    ensures forall c | c in InsertByKey(s, x, CandidateTimestamp) :: c in s || c == x
  {
    if s == [] || CandidateTimestamp(s[|s| - 1]) <= CandidateTimestamp(x) {
    } else {
      InsertCommutes(s[..|s| - 1], x);
      assert RequestsOf(s[..|s| - 1]) == RequestsOf(s)[..|s| - 1];
    }
  }

  /** Sorting the candidates sorts their requests, and makes up no candidate. */
  lemma {:induction false} SortCommutes(s: seq<Candidate>)
    ensures RequestsOf(StableSort(s, CandidateTimestamp)) == StableSort(RequestsOf(s), Timestamp)
    ensures forall c | c in StableSort(s, CandidateTimestamp) :: c in s
  {
    if s != [] {
      SortCommutes(s[..|s| - 1]);
      InsertCommutes(StableSort(s[..|s| - 1], CandidateTimestamp), s[|s| - 1]);
      assert RequestsOf(s[..|s| - 1]) == RequestsOf(s)[..|s| - 1];
    }
  }

  /** `_buildCandidates`: the requests in the order of their timestamps, each with a fresh candidate. */
  method BuildCandidates(requests: seq<Request>) returns (candidates: seq<Candidate>)
    ensures SortedBy(RequestsOf(candidates), Timestamp)
    ensures forall i, j | 0 <= i < j < |candidates| ::
              candidates[i].request.timestamp <= candidates[j].request.timestamp
    ensures multiset(RequestsOf(candidates)) == multiset(requests)
    ensures forall k :: WithKey(RequestsOf(candidates), Timestamp, k) == WithKey(requests, Timestamp, k)
    ensures forall c | c in candidates :: fresh(c) && c.ShouldAnchor() && c.streamId == c.request.streamId
  {
    candidates := [];
    for i := 0 to |requests|
      invariant RequestsOf(candidates) == requests[..i]
      invariant forall c | c in candidates :: fresh(c) && c.ShouldAnchor() && c.streamId == c.request.streamId
    {
      var candidate := new Candidate(requests[i].streamId, requests[i]);
      candidates := candidates + [candidate];
    }
    assert requests[..|requests|] == requests;
    SortCommutes(candidates);
    StableSortCorrect(requests, Timestamp);
    candidates := StableSort(candidates, CandidateTimestamp);
    assert forall i, j | 0 <= i < j < |candidates| ::
        Timestamp(RequestsOf(candidates)[i]) <= Timestamp(RequestsOf(candidates)[j]);
  }

  // ----- Classification -----

  datatype RequestGroups = RequestGroups(
    alreadyAnchoredRequests: seq<Request>,
    acceptedRequests: seq<Request>,
    unprocessedRequests: seq<Request>)

  /** No limit, or one beyond the number of candidates, means all of them. */
  function EffectiveLimit(count: nat, candidateLimit: nat): nat {
    if candidateLimit == 0 || count < candidateLimit then count else candidateLimit
  }

  predicate Selectable(c: Candidate, rows: seq<FreshAnchor>)
    reads c
  {
    c.ShouldAnchor() && !HasAnchor(rows, c.request.id)
  }

  function Selectables(candidates: seq<Candidate>, rows: seq<FreshAnchor>): (flags: seq<bool>)
    reads candidates
    ensures |flags| == |candidates|
    ensures forall i | 0 <= i < |candidates| :: flags[i] == Selectable(candidates[i], rows)
  {
    seq(|candidates|, i requires 0 <= i < |candidates| reads candidates => Selectable(candidates[i], rows))
  }

  function Count(flags: seq<bool>): nat {
    if flags == [] then 0 else Count(flags[..|flags| - 1]) + if flags[|flags| - 1] then 1 else 0
  }

  /** Where the selection ends: behind the flag that fills the limit, or at the end. */
  predicate IsCut(flags: seq<bool>, limit: nat, cut: nat) {
    && cut <= |flags|
    && Count(flags[..cut]) <= limit
    && (cut < |flags| ==> Count(flags[..cut]) == limit)
    && (cut > 0 ==> Count(flags[..cut - 1]) < limit)
  }

  lemma {:induction false} CountGrows(flags: seq<bool>, i: nat, j: nat)
    requires i <= j <= |flags|
    ensures Count(flags[..i]) <= Count(flags[..j]) <= Count(flags[..i]) + (j - i)
  {
    if i < j {
      CountGrows(flags, i, j - 1);
      assert flags[..j][..j - 1] == flags[..j - 1];
    }
  }

  /** There is only one place to cut. */
  lemma CutIsUnique(flags: seq<bool>, limit: nat, a: nat, b: nat)
    requires IsCut(flags, limit, a) && IsCut(flags, limit, b)
    ensures a == b
  {
    if a < b {
      CountGrows(flags, a, b - 1);
    } else if b < a {
      CountGrows(flags, b, a - 1);
    }
  }

  /** Unless the limit is reached before the last candidate, none is left unprocessed. */
  lemma NothingUnprocessed(flags: seq<bool>, candidateLimit: nat, cut: nat)
    requires IsCut(flags, EffectiveLimit(|flags|, candidateLimit), cut)
    ensures candidateLimit == 0 || candidateLimit >= |flags| ==> cut == |flags|
    ensures candidateLimit > 0 ==> Count(flags[..cut]) <= candidateLimit
    ensures cut < |flags| ==> Count(flags[..cut]) == candidateLimit
    ensures cut < |flags| <==> exists p | 0 <= p < |flags| ::
              Count(flags[..p]) == EffectiveLimit(|flags|, candidateLimit)
  {
    var limit := EffectiveLimit(|flags|, candidateLimit);
    CountGrows(flags, 0, cut);
    forall p | 0 <= p < |flags| && Count(flags[..p]) == limit
      ensures cut < |flags|
    {
      if cut == |flags| {
        CountGrows(flags, p, cut - 1);
      }
    }
  }

  /** The requests whose flag is not set. */
  function Unflagged(requests: seq<Request>, flags: seq<bool>): seq<Request>
    requires |flags| == |requests|
  {
    if requests == [] then []
    else
      var n := |requests| - 1;
      Unflagged(requests[..n], flags[..n]) + if flags[n] then [] else [requests[n]]
  }

  lemma {:induction false} UnflaggedCount(requests: seq<Request>, flags: seq<bool>)
    requires |flags| == |requests|
    ensures |Unflagged(requests, flags)| + Count(flags) == |flags|
  {
    if requests != [] {
      UnflaggedCount(requests[..|requests| - 1], flags[..|requests| - 1]);
    }
  }

  lemma {:induction false} UnflaggedExactly(requests: seq<Request>, flags: seq<bool>)
    requires |flags| == |requests|
    ensures forall r :: r in Unflagged(requests, flags) <==>
              exists i :: 0 <= i < |flags| && requests[i] == r && !flags[i]
  {
    if requests != [] {
      var n := |requests| - 1;
      UnflaggedExactly(requests[..n], flags[..n]);
      forall i, r | 0 <= i < |flags| && requests[i] == r && !flags[i]
        ensures r in Unflagged(requests, flags)
      {
        if i < n {
          assert requests[..n][i] == r && !flags[..n][i];
        }
      }
    }
  }

  lemma CountNext(flags: seq<bool>, i: nat)
    requires i < |flags|
    ensures Count(flags[..i + 1]) == Count(flags[..i]) + if flags[i] then 1 else 0
  {
    assert flags[..i + 1][..i] == flags[..i];
  }

  /** The loop of `_loadCandidateStreams` after `i` candidates, the first `cut` of which it looked at. */
  ghost predicate Progress(requests: seq<Request>, flags: seq<bool>, limit: nat, i: nat, cut: nat,
                           selected: nat, already: seq<Request>, unprocessed: seq<Request>)
    requires |flags| == |requests|
  {
    && cut <= i <= |flags|
    && selected == Count(flags[..cut]) <= limit
    && (cut < i ==> selected == limit)
    && (cut > 0 ==> Count(flags[..cut - 1]) < limit)
    && already == Unflagged(requests[..cut], flags[..cut])
    && unprocessed == requests[cut..i]
  }

  lemma ProgressBeyond(requests: seq<Request>, flags: seq<bool>, limit: nat, i: nat, cut: nat,
                       selected: nat, already: seq<Request>, unprocessed: seq<Request>)
    requires |flags| == |requests| && i < |flags| && selected >= limit
    requires Progress(requests, flags, limit, i, cut, selected, already, unprocessed)
    ensures Progress(requests, flags, limit, i + 1, cut, selected, already, unprocessed + [requests[i]])
  {
  }

  lemma ProgressAt(requests: seq<Request>, flags: seq<bool>, limit: nat, i: nat, cut: nat,
                   selected: nat, already: seq<Request>, unprocessed: seq<Request>)
    requires |flags| == |requests| && i < |flags| && selected < limit
    requires Progress(requests, flags, limit, i, cut, selected, already, unprocessed)
    ensures cut == i
    ensures Progress(requests, flags, limit, i + 1, i + 1, if flags[i] then selected + 1 else selected,
                     if flags[i] then already else already + [requests[i]], unprocessed)
  {
    CountNext(flags, i);
    assert flags[..i + 1][..i] == flags[..i] && requests[..i + 1][..i] == requests[..i];
  }

  /** The flags, when those of `done` were checked: `was` are the flags before. */
  ghost predicate FlagsAre(candidates: seq<Candidate>, was: map<Candidate, bool>, done: set<Candidate>,
                           rows: seq<FreshAnchor>)
    reads candidates
  {
    forall c | c in candidates ::
      c in was && c.alreadyAnchored == (was[c] || (c in done && HasAnchor(rows, c.request.id)))
  }

  /** The loop of `_loadCandidateStreams`; `cut` candidates are looked at. */
  method SelectCandidates(candidates: seq<Candidate>, rows: seq<FreshAnchor>, limit: nat,
                          ghost flags: seq<bool>, ghost was: map<Candidate, bool>)
    returns (already: seq<Request>, unprocessed: seq<Request>, ghost cut: nat, ghost selected: nat)
    requires FlagsAre(candidates, was, {}, rows) && |flags| == |candidates|
    requires forall i | 0 <= i < |flags| ::
               flags[i] == (!was[candidates[i]] && !HasAnchor(rows, candidates[i].request.id))
    modifies candidates
    ensures Progress(RequestsOf(candidates), flags, limit, |candidates|, cut, selected, already, unprocessed)
    ensures FlagsAre(candidates, was, SetOf(candidates[..cut]), rows)
  {
    already, unprocessed := [], [];
    var numSelected := 0;
    ghost var requests := RequestsOf(candidates);
    cut := 0;
    for i := 0 to |candidates|
      invariant Progress(requests, flags, limit, i, cut, numSelected, already, unprocessed)
      invariant FlagsAre(candidates, was, SetOf(candidates[..cut]), rows)
    {
      var candidate := candidates[i];
      if numSelected >= limit {
        ProgressBeyond(requests, flags, limit, i, cut, numSelected, already, unprocessed);
        unprocessed := unprocessed + [candidate.request];
      } else {
        ProgressAt(requests, flags, limit, i, cut, numSelected, already, unprocessed);
        SetOfNext(candidates, i);
        var chosen := CheckAnchored(candidate, rows, candidates, was, SetOf(candidates[..cut]));
        if chosen {
          numSelected := numSelected + 1;
        } else {
          already := already + [candidate.request];
        }
        cut := i + 1;
      }
    }
    selected := numSelected;
  }

  /**
   * `_loadCandidateStreams`: up to the cut each candidate is selected or already anchored, and flagged
   * accordingly; behind it all are unprocessed and keep their flags.
   */
  method LoadCandidateStreams(candidates: seq<Candidate>, rows: seq<FreshAnchor>, candidateLimit: nat)
    returns (groups: RequestGroups)
    modifies candidates
    ensures var flags, was := old(Selectables(candidates, rows)), old(Flags(candidates));
            exists cut: nat ::
              && IsClassification(RequestsOf(candidates), flags, candidateLimit, cut, groups)
              && FlagsAre(candidates, was, SetOf(candidates[..cut]), rows)
  {
    var limit := candidateLimit;
    if limit == 0 || |candidates| < limit {
      limit := |candidates|;
    }
    ghost var flags, was := Selectables(candidates, rows), Flags(candidates);
    var already, unprocessed, cut, selected := SelectCandidates(candidates, rows, limit, flags, was);
    groups := RequestGroups(already, [], unprocessed);
    ProgressClassifies(RequestsOf(candidates), flags, candidateLimit, cut, selected, already, unprocessed);
  }

  /** Which requests have no row yet. */
  function WithoutRow(requests: seq<Request>, rows: seq<FreshAnchor>): (flags: seq<bool>)
    ensures |flags| == |requests|
    ensures forall i | 0 <= i < |requests| :: flags[i] <==> !HasAnchor(rows, requests[i].id)
  {
    seq(|requests|, i requires 0 <= i < |requests| => !HasAnchor(rows, requests[i].id))
  }

  /** Up to some cut the requests with a row are already anchored; those behind it are unprocessed. */
  ghost predicate ClassifiesByRow(groups: RequestGroups, requests: seq<Request>, rows: seq<FreshAnchor>,
                                  candidateLimit: nat)
  {
    exists cut: nat ::
      IsClassification(requests, WithoutRow(requests, rows), candidateLimit, cut,
                       groups.(acceptedRequests := []))
  }

  /** The selection ends at `cut`, and each request is in the class of its place and flag. */
  ghost predicate IsClassification(requests: seq<Request>, flags: seq<bool>, candidateLimit: nat, cut: nat,
                                   groups: RequestGroups)
    requires |flags| == |requests|
  {
    && IsCut(flags, EffectiveLimit(|requests|, candidateLimit), cut)
    && groups == GroupsAt(requests, flags, cut)
  }

  lemma ProgressClassifies(requests: seq<Request>, flags: seq<bool>, candidateLimit: nat, cut: nat,
                           selected: nat, already: seq<Request>, unprocessed: seq<Request>)
    requires |flags| == |requests|
    requires Progress(requests, flags, EffectiveLimit(|requests|, candidateLimit), |requests|, cut, selected,
                      already, unprocessed)
    ensures IsClassification(requests, flags, candidateLimit, cut, RequestGroups(already, [], unprocessed))
  {
  }

  ghost function Flags(candidates: seq<Candidate>): map<Candidate, bool>
    reads candidates
  {
    map c | c in candidates :: c.alreadyAnchored
  }

  /** The part of the loop that looks at one candidate: it is flagged if it has a row. */
  method CheckAnchored(candidate: Candidate, rows: seq<FreshAnchor>,
                       ghost candidates: seq<Candidate>, ghost was: map<Candidate, bool>, ghost done: set<Candidate>)
    returns (chosen: bool)
    requires candidate in candidates && FlagsAre(candidates, was, done, rows)
    modifies candidate
    ensures chosen == (!was[candidate] && !HasAnchor(rows, candidate.request.id))
    ensures FlagsAre(candidates, was, done + {candidate}, rows)
  {
    var existing := candidate.ShouldAnchor() && HasAnchor(rows, candidate.request.id);
    if existing {
      candidate.MarkAsAnchored();
    }
    chosen := candidate.ShouldAnchor();
  }

  function SetOf(candidates: seq<Candidate>): set<Candidate> {
    set c | c in candidates
  }

  lemma SetOfNext(candidates: seq<Candidate>, i: nat)
    requires i < |candidates|
    ensures SetOf(candidates[..i + 1]) == SetOf(candidates[..i]) + {candidates[i]}
  {
  }

  function GroupsAt(requests: seq<Request>, flags: seq<bool>, cut: nat): RequestGroups
    requires |flags| == |requests| && cut <= |requests|
  {
    RequestGroups(Unflagged(requests[..cut], flags[..cut]), [], requests[cut..])
  }

  /** Each candidate is in one class: the classes add up, and exactly `Count` of them stay to be anchored. */
  lemma ClassesAddUp(requests: seq<Request>, flags: seq<bool>, cut: nat)
    requires |flags| == |requests| && cut <= |requests|
    ensures var groups := GroupsAt(requests, flags, cut);
            && Count(flags[..cut]) + |groups.alreadyAnchoredRequests| + |groups.unprocessedRequests| == |requests|
            && (forall r :: r in groups.alreadyAnchoredRequests <==>
                  exists i :: 0 <= i < cut && requests[i] == r && !flags[i])
            && (forall r :: r in groups.unprocessedRequests <==> exists i :: cut <= i < |requests| && requests[i] == r)
  {
    UnflaggedCount(requests[..cut], flags[..cut]);
    UnflaggedExactly(requests[..cut], flags[..cut]);
    forall r | r in requests[cut..]
      ensures exists i :: cut <= i < |requests| && requests[i] == r
    {
      var k :| 0 <= k < |requests[cut..]| && requests[cut..][k] == r;
      assert requests[cut + k] == r;
    }
    forall i, r | cut <= i < |requests| && requests[i] == r
      ensures r in requests[cut..]
    {
      assert requests[cut..][i - cut] == r;
    }
  }
}
