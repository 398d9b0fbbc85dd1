/**
 * String.prototype.replace with a global pattern and a replacement callback,
 * independent of the pattern: the search is summarised by a table giving, for
 * each position, whether the pattern matches when the search reaches it, where
 * that match ends, and what the callback adds after it.
 */
module Replace {
  import opened Opt

  /** A match ending at `end`, after which the callback inserts `insert`. */
  datatype Hit = Hit(end: nat, insert: string)

  /** One entry per position of s; every match is non-empty and ends inside s. */
  ghost predicate HitsOf(s: string, hits: seq<Option<Hit>>) {
    |hits| == |s| &&
    forall i | 0 <= i < |hits| :: hits[i].Some? ==> i < hits[i].value.end <= |s|
  }

  /** The replace result for the part of s the search reaches from position i on. */
  function ReplaceFrom(s: string, hits: seq<Option<Hit>>, i: nat): (t: string)
    requires HitsOf(s, hits) && i <= |s|
    ensures |t| >= |s| - i
    decreases |s| - i
  {
    if i == |s| then []
    else match hits[i]
      case Some(h) => s[i..h.end] + h.insert + ReplaceFrom(s, hits, h.end)
      case None => [s[i]] + ReplaceFrom(s, hits, i + 1)
  }

  /** The start of every match the global search finds from position i on. */
  function Matches(s: string, hits: seq<Option<Hit>>, i: nat): (ps: seq<nat>)
    requires HitsOf(s, hits) && i <= |s|
    ensures MatchList(s, hits, i, ps)
    decreases |s| - i
  {
    if i == |s| then []
    else match hits[i]
      case Some(h) => [i] + Matches(s, hits, h.end)
      case None => Matches(s, hits, i + 1)
  }

  /** Starts of matches at or after i, in order, none overlapping the next. */
  ghost predicate MatchList(s: string, hits: seq<Option<Hit>>, i: nat, ps: seq<nat>)
    requires HitsOf(s, hits)
  {
    && (forall k | 0 <= k < |ps| :: i <= ps[k] < |s| && hits[ps[k]].Some?)
    && (forall k | 0 <= k < |ps| - 1 :: hits[ps[k]].value.end <= ps[k + 1])
  }

  lemma {:induction false} MatchListOrdered(s: string, hits: seq<Option<Hit>>, i: nat, ps: seq<nat>, a: nat, b: nat)
    requires HitsOf(s, hits) && MatchList(s, hits, i, ps) && a <= b < |ps|
    ensures ps[a] <= ps[b]
    decreases b - a
  {
    if a < b {
      MatchListOrdered(s, hits, i, ps, a + 1, b);
      assert ps[a] < hits[ps[a]].value.end <= ps[a + 1];
    }
  }

  /** Dropping the first match leaves a list of matches after its end. */
  lemma MatchListTail(s: string, hits: seq<Option<Hit>>, i: nat, ps: seq<nat>)
    requires HitsOf(s, hits) && MatchList(s, hits, i, ps) && ps != []
    ensures MatchList(s, hits, hits[ps[0]].value.end, ps[1..])
  {
    var e := hits[ps[0]].value.end;
    forall k | 0 <= k < |ps| - 1
      ensures e <= ps[1..][k]
    {
      MatchListOrdered(s, hits, i, ps, 1, k + 1);
    }
  }

  /** s from i on, unchanged except that each listed match is followed by its insertion. */
  function Splice(s: string, hits: seq<Option<Hit>>, i: nat, ps: seq<nat>): string
    requires HitsOf(s, hits) && i <= |s| && MatchList(s, hits, i, ps)
    decreases |ps|
  {
    if ps == [] then s[i..]
    else
      var h := hits[ps[0]].value;
      MatchListTail(s, hits, i, ps);
      s[i..h.end] + h.insert + Splice(s, hits, h.end, ps[1..])
  }

  /** A character before the first listed match is copied as it is. */
  lemma SpliceSkip(s: string, hits: seq<Option<Hit>>, i: nat, ps: seq<nat>)
    requires HitsOf(s, hits) && i < |s| && MatchList(s, hits, i + 1, ps)
    ensures MatchList(s, hits, i, ps)
    ensures Splice(s, hits, i, ps) == [s[i]] + Splice(s, hits, i + 1, ps)
  {
    assert MatchList(s, hits, i, ps);
    if ps == [] {
      assert s[i..] == [s[i]] + s[i + 1..];
    } else {
      var h := hits[ps[0]].value;
      MatchListTail(s, hits, i, ps);
      var rest := Splice(s, hits, h.end, ps[1..]);
      assert Splice(s, hits, i, ps) == s[i..h.end] + h.insert + rest;
      assert Splice(s, hits, i + 1, ps) == s[i + 1..h.end] + h.insert + rest;
      assert s[i..h.end] == [s[i]] + s[i + 1..h.end];
    }
  }

  /** The replace result is the input with an insertion after each leftmost match, and nothing else. */
  lemma {:induction false} ReplaceIsSplice(s: string, hits: seq<Option<Hit>>, i: nat)
    requires HitsOf(s, hits) && i <= |s|
    ensures ReplaceFrom(s, hits, i) == Splice(s, hits, i, Matches(s, hits, i))
    decreases |s| - i
  {
    if i < |s| {
      match hits[i]
      case Some(h) =>
        ReplaceIsSplice(s, hits, h.end);
        assert Matches(s, hits, i)[1..] == Matches(s, hits, h.end);
      case None =>
        ReplaceIsSplice(s, hits, i + 1);
        SpliceSkip(s, hits, i, Matches(s, hits, i + 1));
    }
  }

  /** The search finds every match except those starting inside an earlier one. */
  lemma {:induction false} MatchesAreLeftmost(s: string, hits: seq<Option<Hit>>, i: nat, p: nat)
    requires HitsOf(s, hits) && i <= p < |s| && hits[p].Some?
    ensures p in Matches(s, hits, i) ||
            exists q | q in Matches(s, hits, i) :: q < p < hits[q].value.end
    decreases |s| - i
  {
    var ms := Matches(s, hits, i);
    if p == i {
      assert ms == [i] + Matches(s, hits, hits[i].value.end);
    } else {
      match hits[i]
      case Some(h) =>
        assert ms == [i] + Matches(s, hits, h.end);
        if p >= h.end {
          MatchesAreLeftmost(s, hits, h.end, p);
          if p !in Matches(s, hits, h.end) {
            var q :| q in Matches(s, hits, h.end) && q < p < hits[q].value.end;
            assert q in ms;
          }
        } else {
          assert i in ms;
        }
      case None =>
        assert ms == Matches(s, hits, i + 1);
        MatchesAreLeftmost(s, hits, i + 1, p);
    }
  }

  /** Every match the search finds is a match. */
  lemma MatchIsHit(s: string, hits: seq<Option<Hit>>, p: nat)
    requires HitsOf(s, hits) && p in Matches(s, hits, 0)
    ensures p < |s| && hits[p].Some?
  {
    MatchInRange(s, hits, 0, p);
  }

  lemma MatchInRange(s: string, hits: seq<Option<Hit>>, i: nat, p: nat)
    requires HitsOf(s, hits) && i <= |s| && p in Matches(s, hits, i)
    ensures i <= p < |s| && hits[p].Some?
  {
    var ps := Matches(s, hits, i);
    var k :| 0 <= k < |ps| && ps[k] == p;
  }

  /** Every match inserts something. */
  ghost predicate InsertsText(hits: seq<Option<Hit>>) {
    forall i | 0 <= i < |hits| :: hits[i].Some? ==> |hits[i].value.insert| > 0
  }

  /** When every match inserts something, the replace changes the text exactly when the pattern matches. */
  lemma {:induction false} ReplaceChangesIffMatch(s: string, hits: seq<Option<Hit>>, i: nat)
    requires HitsOf(s, hits) && InsertsText(hits) && i <= |s|
    ensures ReplaceFrom(s, hits, i) == s[i..] <==> Matches(s, hits, i) == []
    decreases |s| - i
  {
    if i < |s| {
      match hits[i]
      case Some(h) =>
        var rest := ReplaceFrom(s, hits, h.end);
        assert ReplaceFrom(s, hits, i) == s[i..h.end] + h.insert + rest;
        assert |h.insert| > 0;
        assert Matches(s, hits, i) == [i] + Matches(s, hits, h.end);
      case None =>
        var rest := ReplaceFrom(s, hits, i + 1);
        assert ReplaceFrom(s, hits, i) == [s[i]] + rest;
        assert Matches(s, hits, i) == Matches(s, hits, i + 1);
        ReplaceChangesIffMatch(s, hits, i + 1);
        assert s[i..] == [s[i]] + s[i + 1..];
        assert ([s[i]] + rest)[1..] == rest;
    }
  }

  /** Up to the end of the first match the result is the input, and the first insertion follows. */
  lemma FirstInsertionPlaced(s: string, hits: seq<Option<Hit>>)
    requires HitsOf(s, hits) && Matches(s, hits, 0) != []
    ensures var h := hits[Matches(s, hits, 0)[0]].value;
      var x := ReplaceFrom(s, hits, 0);
      && h.end + |h.insert| <= |x| && x[..h.end] == s[..h.end]
      && x[h.end..h.end + |h.insert|] == h.insert
  {
    var ps := Matches(s, hits, 0);
    var h := hits[ps[0]].value;
    ReplaceIsSplice(s, hits, 0);
    MatchListTail(s, hits, 0, ps);
    var rest := Splice(s, hits, h.end, ps[1..]);
    var x := ReplaceFrom(s, hits, 0);
    assert x == s[0..h.end] + h.insert + rest;
    assert x[h.end..h.end + |h.insert|] == (s[0..h.end] + h.insert + rest)[h.end..h.end + |h.insert|];
    assert x[..h.end] == (s[0..h.end] + h.insert + rest)[..h.end];
  }

  /** Right after the first match, the result holds the first character of that match's insertion. */
  lemma FirstInsertionFollows(s: string, hits: seq<Option<Hit>>)
    requires HitsOf(s, hits) && Matches(s, hits, 0) != []
    requires |hits[Matches(s, hits, 0)[0]].value.insert| > 0
    ensures var h := hits[Matches(s, hits, 0)[0]].value;
      var x := ReplaceFrom(s, hits, 0);
      && h.end < |x| && x[..h.end] == s[..h.end] && x[h.end] == h.insert[0]
  {
    var h := hits[Matches(s, hits, 0)[0]].value;
    var x := ReplaceFrom(s, hits, 0);
    FirstInsertionPlaced(s, hits);
    assert x[h.end] == x[h.end..h.end + |h.insert|][0];
  }

  /** Where the search finds no match at i, it copies s[i] and moves on by one. */
  lemma MissStep(s: string, hits: seq<Option<Hit>>, i: nat)
    requires HitsOf(s, hits) && i < |s| && hits[i].None?
    ensures ReplaceFrom(s, hits, i) == [s[i]] + ReplaceFrom(s, hits, i + 1)
    ensures Matches(s, hits, i) == Matches(s, hits, i + 1)
  {
  }

  /** Where the search finds a match at i, it copies the match, inserts, and goes on from the match's end. */
  lemma HitStep(s: string, hits: seq<Option<Hit>>, i: nat)
    requires HitsOf(s, hits) && i < |s| && hits[i].Some?
    ensures var h := hits[i].value;
      && ReplaceFrom(s, hits, i) == s[i..h.end] + h.insert + ReplaceFrom(s, hits, h.end)
      && Matches(s, hits, i) == [i] + Matches(s, hits, h.end)
  {
  }

  /** The replace of a text whose only match runs to its end, starting at p. */
  lemma {:induction false} LastMatchOnly(s: string, hits: seq<Option<Hit>>, i: nat, p: nat, ins: string)
    requires HitsOf(s, hits) && i <= p < |s| && hits[p] == Some(Hit(|s|, ins))
    requires forall k | i <= k < p :: hits[k].None?
    ensures ReplaceFrom(s, hits, i) == s[i..] + ins
    decreases p - i
  {
    if i < p {
      LastMatchOnly(s, hits, i + 1, p, ins);
      MissStep(s, hits, i);
      assert s[i..] == [s[i]] + s[i + 1..];
    } else {
      HitStep(s, hits, i);
      assert ReplaceFrom(s, hits, |s|) == [];
    }
  }

  /** Every match the search finds has its insertion somewhere in the result, at q. */
  lemma {:induction false} InsertionPlaced(s: string, hits: seq<Option<Hit>>, i: nat, p: nat) returns (q: nat)
    requires HitsOf(s, hits) && i <= |s| && p in Matches(s, hits, i)
    ensures p < |s| && hits[p].Some?
    ensures var x := ReplaceFrom(s, hits, i); var ins := hits[p].value.insert;
      q + |ins| <= |x| && x[q..q + |ins|] == ins
    decreases |s| - i, 1
  {
    MatchInRange(s, hits, i, p);
    if hits[i].Some? {
      q := InsertionAfterHit(s, hits, i, p);
    } else {
      q := InsertionAfterMiss(s, hits, i, p);
    }
  }

  /** InsertionPlaced when the search finds a match at i. */
  lemma {:induction false} InsertionAfterHit(s: string, hits: seq<Option<Hit>>, i: nat, p: nat) returns (q: nat)
    requires HitsOf(s, hits) && i <= p < |s| && hits[i].Some? && hits[p].Some? && p in Matches(s, hits, i)
    ensures var x := ReplaceFrom(s, hits, i); var ins := hits[p].value.insert;
      q + |ins| <= |x| && x[q..q + |ins|] == ins
    decreases |s| - i, 0
  {
    var h := hits[i].value;
    var rest := ReplaceFrom(s, hits, h.end);
    HitStep(s, hits, i);
    if p == i {
      assert s[i..h.end] + h.insert + rest == s[i..h.end] + (h.insert + rest);
      SliceAfter(s[i..h.end], h.insert + rest, 0, |h.insert|);
      q := h.end - i;
    } else {
      assert p in Matches(s, hits, h.end);
      var q' := InsertionPlaced(s, hits, h.end, p);
      SliceAfter(s[i..h.end] + h.insert, rest, q', |hits[p].value.insert|);
      q := (h.end - i) + |h.insert| + q';
    }
  }

  /** InsertionPlaced when the search finds no match at i and moves on by one. */
  lemma {:induction false} InsertionAfterMiss(s: string, hits: seq<Option<Hit>>, i: nat, p: nat) returns (q: nat)
    requires HitsOf(s, hits) && i <= p < |s| && hits[i].None? && hits[p].Some? && p in Matches(s, hits, i)
    ensures var x := ReplaceFrom(s, hits, i); var ins := hits[p].value.insert;
      q + |ins| <= |x| && x[q..q + |ins|] == ins
    decreases |s| - i, 0
  {
    MissStep(s, hits, i);
    var q' := InsertionPlaced(s, hits, i + 1, p);
    SliceAfter([s[i]], ReplaceFrom(s, hits, i + 1), q', |hits[p].value.insert|);
    q := 1 + q';
  }

  lemma SliceAfter(a: string, b: string, q: nat, n: nat)
    requires q + n <= |b|
    ensures (a + b)[|a| + q..|a| + q + n] == b[q..q + n]
  {
  }

  /** Every match that inserts " (" + v + ")" leaves "(" + v + ")" somewhere in the result, at q. */
  lemma NoteParenthesised(s: string, hits: seq<Option<Hit>>, p: nat, v: string) returns (q: nat)
    requires HitsOf(s, hits) && p in Matches(s, hits, 0)
    requires hits[p].Some? && hits[p].value.insert == " (" + v + ")"
    ensures Parenthesised(ReplaceFrom(s, hits, 0), q, v)
  {
    var x := ReplaceFrom(s, hits, 0);
    var q0 := InsertionPlaced(s, hits, 0, p);
    InsertionParenthesised(x, q0, v);
    q := q0 + 1;
  }

  /** When the search finds a match and every match inserts something, the result is longer than the input. */
  lemma ReplaceLonger(s: string, hits: seq<Option<Hit>>)
    requires HitsOf(s, hits) && InsertsText(hits) && Matches(s, hits, 0) != []
    ensures |ReplaceFrom(s, hits, 0)| > |s|
  {
    var ps := Matches(s, hits, 0);
    var h := hits[ps[0]].value;
    ReplaceIsSplice(s, hits, 0);
    MatchListTail(s, hits, 0, ps);
    var rest := Splice(s, hits, h.end, ps[1..]);
    SpliceLength(s, hits, h.end, ps[1..]);
    assert ReplaceFrom(s, hits, 0) == s[0..h.end] + h.insert + rest;
  }

  /** A splice is at least as long as the part of s it starts from. */
  lemma {:induction false} SpliceLength(s: string, hits: seq<Option<Hit>>, i: nat, ps: seq<nat>)
    requires HitsOf(s, hits) && i <= |s| && MatchList(s, hits, i, ps)
    ensures |Splice(s, hits, i, ps)| >= |s| - i
    decreases |ps|
  {
    if ps != [] {
      MatchListTail(s, hits, i, ps);
      SpliceLength(s, hits, hits[ps[0]].value.end, ps[1..]);
    }
  }

  /** x holds "(" + v + ")" at position q. */
  predicate Parenthesised(x: string, q: nat, v: string) {
    q + |v| + 2 <= |x| && x[q..q + |v| + 2] == "(" + v + ")"
  }

  lemma InsertionParenthesised(x: string, e: nat, v: string)
    requires e + |v| + 3 <= |x| && x[e..e + |v| + 3] == " (" + v + ")"
    ensures Parenthesised(x, e + 1, v)
  {
    assert x[e + 1..e + 1 + |v| + 2] == x[e..e + |v| + 3][1..];
    assert (" (" + v + ")")[1..] == "(" + v + ")";
  }

  /** Where the pattern matches nowhere from i on, the rest of s is copied unchanged. */
  lemma {:induction false} NoMatchCopies(s: string, hits: seq<Option<Hit>>, i: nat)
    requires HitsOf(s, hits) && i <= |s|
    requires forall k | i <= k < |s| :: hits[k].None?
    ensures ReplaceFrom(s, hits, i) == s[i..]
    decreases |s| - i
  {
    if i < |s| {
      NoMatchCopies(s, hits, i + 1);
      assert s[i..] == [s[i]] + s[i + 1..];
    }
  }
}
