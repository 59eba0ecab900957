/** The filtered view of the candidate list (autocomplete.js lines 59-65): the candidates
    whose lower-cased text contains the lower-cased input, in candidate order. */
module SuggestionFilter {
  import opened TextMatch

  /** The filter's test for one candidate, given the already lower-cased input `needle`.
      An input longer than the candidate never matches; the empty input always does. */
  predicate Matches(candidate: string, needle: string)
    ensures Matches(candidate, needle) ==> |needle| <= |candidate|
    ensures needle == [] ==> Matches(candidate, needle)
  {
    ContainsEmpty(Lower(candidate));
    Contains(Lower(candidate), needle)
  }

  /** A candidate matches exactly when the needle occurs at some position of the
      lower-cased candidate. */
  lemma MatchesIff(candidate: string, needle: string)
    ensures Matches(candidate, needle) ==> exists i :: OccursAt(Lower(candidate), needle, i)
    ensures (exists i :: OccursAt(Lower(candidate), needle, i)) ==> Matches(candidate, needle)
  {
    ContainsIff(Lower(candidate), needle);
  }

  /** `candidates.filter(c => c.toLowerCase().includes(needle))`. */
  function Filter(candidates: seq<string>, needle: string): (view: seq<string>)
    ensures |view| <= |candidates|
    ensures forall k :: 0 <= k < |view| ==> Matches(view[k], needle)
  {
    if candidates == [] then []
    else if Matches(candidates[0], needle) then [candidates[0]] + Filter(candidates[1..], needle)
    else Filter(candidates[1..], needle)
  }

  /** `idx` lists, strictly increasing, exactly the positions of `candidates` that match. */
  ghost predicate MatchPositions(idx: seq<int>, candidates: seq<string>, needle: string) {
    (forall k :: 0 <= k < |idx| ==> 0 <= idx[k] < |candidates|) &&
    (forall k, l :: 0 <= k < l < |idx| ==> idx[k] < idx[l]) &&
    (forall i :: 0 <= i < |candidates| ==> (Matches(candidates[i], needle) <==> i in idx))
  }

  /** Every position moved one step to the right. */
  function Shift(idx: seq<int>): (r: seq<int>)
    ensures |r| == |idx|
    ensures forall k :: 0 <= k < |idx| ==> r[k] == idx[k] + 1
  {
    seq(|idx|, k requires 0 <= k < |idx| => idx[k] + 1)
  }

  /** The match positions of a candidate list, given those of its tail. */
  lemma ShiftPositions(candidates: seq<string>, needle: string, rest: seq<int>) returns (idx: seq<int>)
    requires candidates != []
    requires MatchPositions(rest, candidates[1..], needle)
    ensures MatchPositions(idx, candidates, needle)
    ensures idx == if Matches(candidates[0], needle) then [0] + Shift(rest) else Shift(rest)
  {
    var tail, shifted := candidates[1..], Shift(rest);
    forall i | 1 <= i < |candidates|
      ensures Matches(candidates[i], needle) <==> i in shifted
    {
      assert candidates[i] == tail[i - 1];
      if i - 1 in rest {
        var k :| 0 <= k < |rest| && rest[k] == i - 1;
        assert shifted[k] == i;
      }
      if i in shifted {
        var k :| 0 <= k < |shifted| && shifted[k] == i;
        assert rest[k] == i - 1;
      }
    }
    assert 0 !in shifted;
    if Matches(candidates[0], needle) {
      idx := [0] + shifted;
      forall i | 0 <= i < |candidates|
        ensures Matches(candidates[i], needle) <==> i in idx
      {
        assert i in idx <==> i == 0 || i in shifted;
      }
    } else {
      idx := shifted;
    }
  }

  /** The view of a candidate list, read off the view of its tail. */
  lemma ViewOfTail(candidates: seq<string>, needle: string, rest: seq<int>, idx: seq<int>)
    requires candidates != []
    requires |rest| == |Filter(candidates[1..], needle)|
    requires forall k :: 0 <= k < |rest| ==> 0 <= rest[k] < |candidates| - 1
    requires forall k :: 0 <= k < |rest| ==> Filter(candidates[1..], needle)[k] == candidates[1..][rest[k]]
    requires idx == if Matches(candidates[0], needle) then [0] + Shift(rest) else Shift(rest)
    ensures |idx| == |Filter(candidates, needle)|
    ensures forall k :: 0 <= k < |idx| ==> Filter(candidates, needle)[k] == candidates[idx[k]]
  {
    var view, tailView := Filter(candidates, needle), Filter(candidates[1..], needle);
    if Matches(candidates[0], needle) {
      assert view == [candidates[0]] + tailView;
      forall k | 0 < k < |idx|
        ensures view[k] == candidates[idx[k]]
      {
        assert view[k] == tailView[k - 1];
      }
    } else {
      assert view == tailView;
    }
  }

  /** The view is exactly the matching candidates, taken in their original order: its k-th
      entry is the candidate at the k-th matching position. */
  lemma {:induction false} FilterExact(candidates: seq<string>, needle: string) returns (idx: seq<int>)
    ensures MatchPositions(idx, candidates, needle)
    ensures |idx| == |Filter(candidates, needle)|
    ensures forall k :: 0 <= k < |idx| ==> Filter(candidates, needle)[k] == candidates[idx[k]]
  {
    if candidates == [] {
      idx := [];
    } else {
      var rest := FilterExact(candidates[1..], needle);
      idx := ShiftPositions(candidates, needle, rest);
      ViewOfTail(candidates, needle, rest, idx);
    }
  }

  /** Each string occurs in the view as often as in the candidate list if it matches, and
      not at all otherwise; in particular the view holds exactly the matching candidates. */
  lemma {:induction false} FilterCount(candidates: seq<string>, needle: string, s: string)
    ensures multiset(Filter(candidates, needle))[s] ==
            if Matches(s, needle) then multiset(candidates)[s] else 0
    ensures s in Filter(candidates, needle) <==> s in candidates && Matches(s, needle)
  {
    if candidates != [] {
      FilterCount(candidates[1..], needle, s);
      assert candidates == [candidates[0]] + candidates[1..];
      assert multiset(candidates) == multiset([candidates[0]]) + multiset(candidates[1..]);
    }
  }

  /** When every candidate matches, the view is the whole candidate list. */
  lemma {:induction false} FilterKeepsAll(candidates: seq<string>, needle: string)
    requires forall k :: 0 <= k < |candidates| ==> Matches(candidates[k], needle)
    ensures Filter(candidates, needle) == candidates
  {
    if candidates != [] {
      FilterKeepsAll(candidates[1..], needle);
    }
  }

  /** An empty input keeps every candidate. */
  lemma FilterEmptyInput(candidates: seq<string>)
    ensures Filter(candidates, Lower("")) == candidates
  {
    forall k | 0 <= k < |candidates|
      ensures Matches(candidates[k], Lower(""))
    {
      ContainsEmpty(Lower(candidates[k]));
    }
    FilterKeepsAll(candidates, Lower(""));
  }

  /** A new needle that contains the old one only narrows the view: filtering the current
      view with it gives the same rows as filtering the whole candidate list with it. */
  lemma {:induction false} FilterRefines(candidates: seq<string>, before: string, after: string)
    requires Contains(after, before)
    ensures Filter(Filter(candidates, before), after) == Filter(candidates, after)
  {
    if candidates != [] {
      FilterRefines(candidates[1..], before, after);
      var c := candidates[0];
      if Matches(c, after) {
        ContainsTrans(Lower(c), after, before);
      }
    }
  }

  /** Appending characters at the end of the input only narrows the view. This rests on
      `LowerAppend`, which holds for the ASCII lower-casing modelled here. */
  lemma FilterNarrows(candidates: seq<string>, typed: string, more: string)
    ensures Filter(Filter(candidates, Lower(typed)), Lower(typed + more)) ==
            Filter(candidates, Lower(typed + more))
  {
    LowerAppend(typed, more);
    assert Lower(typed + more)[..|Lower(typed)|] == Lower(typed);
    FilterRefines(candidates, Lower(typed), Lower(typed + more));
  }
}
