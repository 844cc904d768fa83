/**
 * The quick switcher's fuzzy matcher: case-insensitive, a substring hit
 * scores by how early it starts, otherwise the query's characters are
 * looked for in order and each one found scores ten.
 */
module Fuzzy {
  import opened Wrappers
  import opened Strings

  datatype MatchResult = MatchResult(matched: bool, score: int)

  /** Positions `idx` pick out `q` from `t`, in strictly increasing order. */
  ghost predicate EmbeddingAt(q: string, t: string, idx: seq<nat>)
  {
    && |idx| == |q|
    && (forall k :: 0 <= k < |idx| ==> idx[k] < |t| && t[idx[k]] == q[k])
    && (forall k, l :: 0 <= k < l < |idx| ==> idx[k] < idx[l])
  }

  /** `q` occurs in `t` as a subsequence, not necessarily contiguous. */
  ghost predicate Embeds(q: string, t: string)
  {
    exists idx :: EmbeddingAt(q, t, idx)
  }

  /** How many query characters a left-to-right scan of `t` matches, taking each one at its first chance. */
  function Greedy(q: string, t: string): (n: nat)
    ensures n <= |q| && n <= |t|
    decreases |t|
  {
    if |q| == 0 || |t| == 0 then 0
    else if t[0] == q[0] then 1 + Greedy(q[1..], t[1..])
    else Greedy(q, t[1..])
  }

  /** Shifting every position of an embedding into `t[1..]` down by one. */
  lemma {:induction false} EmbeddingTail(q: string, t: string, idx: seq<nat>)
    requires |t| > 0 && EmbeddingAt(q, t, idx)
    requires forall k :: 0 <= k < |idx| ==> idx[k] >= 1
    ensures Embeds(q, t[1..])
  {
    var idx' := seq(|idx|, k requires 0 <= k < |idx| => idx[k] - 1);
    assert EmbeddingAt(q, t[1..], idx');
  }

  /** If the query can be found in order at all, the greedy scan finds all of it. */
  lemma {:induction false} GreedyComplete(q: string, t: string)
    requires Embeds(q, t)
    ensures Greedy(q, t) == |q|
    decreases |t|
  {
    var idx :| EmbeddingAt(q, t, idx);
    if |q| == 0 {
    } else {
      assert |t| > 0 by { assert idx[0] < |t|; }
      if t[0] == q[0] {
        var rest := idx[1..];
        assert forall k :: 0 <= k < |rest| ==> rest[k] >= 1 by {
          forall k | 0 <= k < |rest|
            ensures rest[k] >= 1
          {
            assert idx[0] < idx[k + 1];
          }
        }
        assert EmbeddingAt(q[1..], t, rest);
        EmbeddingTail(q[1..], t, rest);
        GreedyComplete(q[1..], t[1..]);
      } else {
        assert idx[0] >= 1 by { assert t[idx[0]] == q[0]; }
        assert forall k :: 0 <= k < |idx| ==> idx[k] >= 1 by {
          forall k | 0 <= k < |idx|
            ensures idx[k] >= 1
          {
            if k > 0 {
              assert idx[0] < idx[k];
            }
          }
        }
        EmbeddingTail(q, t, idx);
        GreedyComplete(q, t[1..]);
      }
    }
  }

  /** What the greedy scan reports as a full match is one. */
  lemma {:induction false} GreedySound(q: string, t: string)
    requires Greedy(q, t) == |q|
    ensures Embeds(q, t)
    decreases |t|
  {
    if |q| == 0 {
      assert EmbeddingAt(q, t, []);
    } else if t[0] == q[0] {
      GreedySound(q[1..], t[1..]);
      var idx :| EmbeddingAt(q[1..], t[1..], idx);
      var full := [0] + seq(|idx|, k requires 0 <= k < |idx| => idx[k] + 1);
      assert EmbeddingAt(q, t, full);
    } else {
      GreedySound(q, t[1..]);
      var idx :| EmbeddingAt(q, t[1..], idx);
      var full := seq(|idx|, k requires 0 <= k < |idx| => idx[k] + 1);
      assert EmbeddingAt(q, t, full);
    }
  }

  /**
   * `fuzzyMatch`: an empty query matches with score 0; a case-insensitive
   * substring hit scores 100 minus where it starts; otherwise the query
   * matches exactly when its characters occur in the text in order, and
   * every character found scores ten.
   */
  method FuzzyMatch(query: string, text: string) returns (r: MatchResult)
    ensures |query| == 0 ==> r == MatchResult(true, 0)
    ensures |query| > 0 && IndexOf(ToLower(text), ToLower(query)).Some? ==>
      r == MatchResult(true, 100 - IndexOf(ToLower(text), ToLower(query)).value)
    ensures |query| > 0 && IndexOf(ToLower(text), ToLower(query)).None? ==>
      && (r.matched <==> Embeds(ToLower(query), ToLower(text)))
      && r.score == 10 * Greedy(ToLower(query), ToLower(text))
  {
    if |query| == 0 {
      return MatchResult(true, 0);
    }
    var lowerQuery := ToLower(query);
    var lowerText := ToLower(text);
    var at := IndexOf(lowerText, lowerQuery);
    if at.Some? {
      var early: int := 100 - at.value as int;
      return MatchResult(true, early);
    }
    var qi := 0;
    var score := 0;
    var ti := 0;
    while ti < |lowerText| && qi < |lowerQuery|
      invariant 0 <= ti <= |lowerText| && 0 <= qi <= |lowerQuery|
      invariant qi + Greedy(lowerQuery[qi..], lowerText[ti..]) == Greedy(lowerQuery, lowerText)
      invariant score == 10 * qi
    {
      if lowerText[ti] == lowerQuery[qi] {
        assert lowerQuery[qi..][1..] == lowerQuery[qi + 1..];
        score := score + 10;
        qi := qi + 1;
      }
      assert lowerText[ti..][1..] == lowerText[ti + 1..];
      ti := ti + 1;
    }
    if qi == |lowerQuery| {
      GreedySound(lowerQuery, lowerText);
    } else {
      if Embeds(lowerQuery, lowerText) {
        GreedyComplete(lowerQuery, lowerText);
      }
    }
    r := MatchResult(qi == |lowerQuery|, score);
  }

  /** A query that occurs as a substring also occurs in order, so the two rules agree on it. */
  lemma {:induction false} SubstringEmbeds(q: string, t: string, k: nat)
    requires OccursAt(t, q, k)
    ensures Embeds(q, t)
  {
    var idx := seq(|q|, i requires 0 <= i < |q| => k + i);
    forall i | 0 <= i < |q|
      ensures t[k + i] == q[i]
    {
      assert t[k..k + |q|][i] == t[k + i];
    }
    assert EmbeddingAt(q, t, idx);
  }

  /**
   * The substring shortcut changes scores, never the verdict: a query is hit
   * as a substring or found in full by the scan exactly when it occurs in
   * the text in order.
   */
  lemma ShortcutKeepsVerdict(q: string, t: string)
    ensures IndexOf(t, q).Some? || Greedy(q, t) == |q| <==> Embeds(q, t)
  {
    if IndexOf(t, q).Some? {
      SubstringEmbeds(q, t, IndexOf(t, q).value);
    }
    if Greedy(q, t) == |q| {
      GreedySound(q, t);
    }
    if Embeds(q, t) {
      GreedyComplete(q, t);
    }
  }
}
