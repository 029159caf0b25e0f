/** The ranking half of `predict_emojis`: Python's
    `sorted(probs, key=lambda x: x["score"], reverse=True)[:top_k]`.
    Python's sort is stable also when `reverse=True`: records with equal
    scores stay in the order the classifier returned them. Scores are only
    compared, so they are modelled as `real`. */
module Ranking {

  /** One record of the classifier's output, `{"label": ..., "score": ...}`
      (`label` is a Dafny keyword, hence `classLabel`). */
  datatype Entry = Entry(classLabel: string, score: real)

  /** Scores never increase from left to right. */
  predicate SortedDesc(s: seq<Entry>) {
    forall i, j :: 0 <= i < j < |s| ==> s[i].score >= s[j].score
  }

  /** The records of `s` whose score is exactly `v`, in their order in `s`. */
  function WithScore(s: seq<Entry>, v: real): (r: seq<Entry>)
    ensures |r| <= |s|
  {
    if s == [] then []
    else (if s[0].score == v then [s[0]] else []) + WithScore(s[1..], v)
  }

  /** `WithScore` keeps exactly the records of score `v`. */
  lemma {:induction false} WithScoreMembers(s: seq<Entry>, v: real, e: Entry)
    ensures e in WithScore(s, v) <==> e in s && e.score == v
  {
    if s != [] {
      WithScoreMembers(s[1..], v, e);
      assert s == [s[0]] + s[1..];
    }
  }

  /** What a stable sort by descending score promises: the result is in
      descending order, and for every score the records holding it appear in
      the same order as in the input. */
  ghost predicate IsStableSortDesc(s: seq<Entry>, r: seq<Entry>) {
    SortedDesc(r) && forall v :: WithScore(r, v) == WithScore(s, v)
  }

  /** Inserts `x`, which came before every record of `t` in the input, in
      front of the first record whose score it reaches. */
  function Insert(x: Entry, t: seq<Entry>): (r: seq<Entry>)
    ensures |r| == |t| + 1
    ensures multiset(r) == multiset(t) + multiset{x}
  {
    if t == [] || x.score >= t[0].score then [x] + t
    else
      assert t == [t[0]] + t[1..];
      [t[0]] + Insert(x, t[1..])
  }

  /** Inserting into a descending sequence keeps it descending. */
  lemma {:induction false} InsertSorted(x: Entry, t: seq<Entry>)
    requires SortedDesc(t)
    ensures SortedDesc(Insert(x, t))
  {
    if t != [] && x.score < t[0].score {
      var rest := Insert(x, t[1..]);
      InsertSorted(x, t[1..]);
      forall e | e in rest ensures t[0].score >= e.score {
        assert e in multiset(rest);
        assert e == x || e in multiset(t[1..]);
      }
      var r := [t[0]] + rest;
      forall i, j | 0 <= i < j < |r| ensures r[i].score >= r[j].score {
        assert r[j] == rest[j - 1];
        if i > 0 {
          assert r[i] == rest[i - 1];
        }
      }
    }
  }

  /** `sorted(s, key=score, reverse=True)`: a stable sort by descending score
      (insertion of each record into the sorted rest). */
  function SortDesc(s: seq<Entry>): (r: seq<Entry>)
    ensures |r| == |s|
    ensures multiset(r) == multiset(s)
    ensures SortedDesc(r)
  {
    if s == [] then []
    else
      assert s == [s[0]] + s[1..];
      InsertSorted(s[0], SortDesc(s[1..]));
      Insert(s[0], SortDesc(s[1..]))
  }

  /** Inserting `x` puts it ahead of every record of `t` with the same score. */
  lemma {:induction false} InsertWithScore(x: Entry, t: seq<Entry>, v: real)
    ensures WithScore(Insert(x, t), v) == (if x.score == v then [x] else []) + WithScore(t, v)
  {
    if t == [] || x.score >= t[0].score {
      assert ([x] + t)[1..] == t;
    } else {
      var rest := Insert(x, t[1..]);
      assert ([t[0]] + rest)[1..] == rest;
      InsertWithScore(x, t[1..], v);
      var head := if t[0].score == v then [t[0]] else [];
      var mine := if x.score == v then [x] else [];
      assert WithScore(Insert(x, t), v) == head + (mine + WithScore(t[1..], v));
      assert WithScore(t, v) == head + WithScore(t[1..], v);
      assert head == [] || mine == [];
    }
  }

  /** `SortDesc` is stable: it keeps the input order among equal scores. */
  lemma {:induction false} SortDescStable(s: seq<Entry>)
    ensures IsStableSortDesc(s, SortDesc(s))
  {
    if s != [] {
      SortDescStable(s[1..]);
      forall v ensures WithScore(SortDesc(s), v) == WithScore(s, v) {
        InsertWithScore(s[0], SortDesc(s[1..]), v);
      }
    }
  }

  /** A stable descending sort has exactly one result: any sequence that is
      sorted by descending score and keeps the input order among equal scores
      is `SortDesc(s)`. */
  lemma SortDescUnique(s: seq<Entry>, r: seq<Entry>)
    requires IsStableSortDesc(s, r)
    ensures r == SortDesc(s)
  {
    SortDescStable(s);
    SameRunsSame(r, SortDesc(s));
  }

  /** Two descending sequences with the same records of every score, in the
      same order, are equal. */
  lemma {:induction false} SameRunsSame(a: seq<Entry>, b: seq<Entry>)
    requires SortedDesc(a) && SortedDesc(b)
    requires forall v :: WithScore(a, v) == WithScore(b, v)
    ensures a == b
  {
    if a == [] || b == [] {
      if a != [] {
        WithScoreMembers(a, a[0].score, a[0]);
      } else if b != [] {
        WithScoreMembers(b, b[0].score, b[0]);
      }
    } else {
      var m := a[0].score;
      WithScoreMembers(b, b[0].score, b[0]);
      WithScoreMembers(a, b[0].score, b[0]);
      WithScoreMembers(a, m, a[0]);
      WithScoreMembers(b, m, a[0]);
      assert b[0].score == m;
      assert WithScore(a, m) == [a[0]] + WithScore(a[1..], m);
      assert WithScore(b, m) == [b[0]] + WithScore(b[1..], m);
      assert WithScore(a, m)[0] == a[0] && WithScore(b, m)[0] == b[0];
      forall v ensures WithScore(a[1..], v) == WithScore(b[1..], v) {
        assert WithScore(a, v) == WithScore(b, v);
        if v == m {
          assert WithScore(a[1..], v) == WithScore(a, v)[1..];
          assert WithScore(b[1..], v) == WithScore(b, v)[1..];
        } else {
          assert WithScore(a[1..], v) == WithScore(a, v);
          assert WithScore(b[1..], v) == WithScore(b, v);
        }
      }
      SameRunsSame(a[1..], b[1..]);
      assert a == [a[0]] + a[1..] && b == [b[0]] + b[1..];
    }
  }

  /** `probs[:top_k]` of the sorted records, for `top_k >= 0`: the first
      `top_k` records, or all of them when there are fewer. */
  function TopK(probs: seq<Entry>, k: nat): (r: seq<Entry>)
    ensures |r| == if k < |probs| then k else |probs|
    ensures SortedDesc(r)
    ensures multiset(r) <= multiset(probs)
  {
    var sorted := SortDesc(probs);
    var n := if k < |sorted| then k else |sorted|;
    assert sorted == sorted[..n] + sorted[n..];
    assert multiset(sorted) == multiset(sorted[..n]) + multiset(sorted[n..]);
    sorted[..n]
  }

  /** The records `TopK` leaves out: the rest of the sorted sequence. */
  function Dropped(probs: seq<Entry>, k: nat): seq<Entry>
  {
    var sorted := SortDesc(probs);
    sorted[if k < |sorted| then k else |sorted|..]
  }

  /** The selection is a true top-k: kept and dropped records together are
      exactly the classifier's records, and every kept record scores at least
      as high as every dropped one. */
  lemma TopKIsTopK(probs: seq<Entry>, k: nat)
    ensures multiset(TopK(probs, k)) + multiset(Dropped(probs, k)) == multiset(probs)
    ensures forall a, b :: a in TopK(probs, k) && b in Dropped(probs, k) ==> a.score >= b.score
  {
    var sorted := SortDesc(probs);
    var n := if k < |sorted| then k else |sorted|;
    assert sorted == sorted[..n] + sorted[n..];
    SortedSplit(sorted, n);
  }

  /** In a descending sequence everything before a cut scores at least as
      high as everything after it. */
  lemma SortedSplit(s: seq<Entry>, n: nat)
    requires SortedDesc(s) && n <= |s|
    ensures forall a, b :: a in s[..n] && b in s[n..] ==> a.score >= b.score
  {
    forall a, b | a in s[..n] && b in s[n..] ensures a.score >= b.score {
      var i :| 0 <= i < n && s[..n][i] == a;
      var j :| 0 <= j < |s| - n && s[n..][j] == b;
      assert s[i] == a && s[n + j] == b;
    }
  }

  /** Among records of equal score the earlier ones are kept first: for every
      score, the kept records with that score are a prefix of the classifier's
      records with that score. */
  lemma TopKKeepsEarlierTies(probs: seq<Entry>, k: nat, v: real)
    ensures var kept := WithScore(TopK(probs, k), v);
            var all := WithScore(probs, v);
            |kept| <= |all| && kept == all[..|kept|]
  {
    var sorted := SortDesc(probs);
    SortDescStable(probs);
    WithScorePrefix(sorted, if k < |sorted| then k else |sorted|, v);
  }

  /** Filtering a prefix gives a prefix of the filtered sequence. */
  lemma {:induction false} WithScorePrefix(s: seq<Entry>, n: nat, v: real)
    requires n <= |s|
    ensures var p := WithScore(s[..n], v);
            var all := WithScore(s, v);
            |p| <= |all| && p == all[..|p|]
  {
    if n > 0 {
      WithScorePrefix(s[1..], n - 1, v);
      assert s[..n][1..] == s[1..][..n - 1];
    }
  }

  /** The position of the first record returned by the classifier that has
      the highest score: every record scores at most as high, and every
      earlier one strictly lower. */
  function ArgMaxIndex(s: seq<Entry>): (k: nat)
    requires s != []
    ensures k < |s|
    ensures forall j :: 0 <= j < |s| ==> s[j].score <= s[k].score
    ensures forall j :: 0 <= j < k ==> s[j].score < s[k].score
  {
    if |s| == 1 then 0
    else
      var k := ArgMaxIndex(s[1..]) + 1;
      assert forall j :: 0 < j < |s| ==> s[j] == s[1..][j - 1];
      if s[0].score >= s[k].score then 0 else k
  }

  /** The first record of highest score: what `max` would pick, and an
      independent definition of the top record. */
  function ArgMax(s: seq<Entry>): Entry
    requires s != []
  {
    s[ArgMaxIndex(s)]
  }

  /** The top record after the stable sort is the first record of maximal
      score, so `top_k = 1` selects exactly `[ArgMax(probs)]`. */
  lemma {:induction false} TopOneIsArgMax(probs: seq<Entry>)
    requires probs != []
    ensures SortDesc(probs)[0] == ArgMax(probs)
    ensures TopK(probs, 1) == [ArgMax(probs)]
  {
    if |probs| > 1 {
      TopOneIsArgMax(probs[1..]);
    }
  }

  /** A value at two positions of a sequence counts at least twice in it. */
  lemma TwiceCounted<T>(s: seq<T>, i: nat, j: nat)
    requires i < j < |s| && s[i] == s[j]
    ensures multiset(s)[s[i]] >= 2
  {
    assert s == s[..j] + s[j..];
    assert s[i] in s[..j] && s[j..][0] == s[i];
  }

  /** A value at one position only counts once. */
  lemma OnceCounted<T>(s: seq<T>, i: nat)
    requires i < |s|
    requires forall j :: 0 <= j < |s| && j != i ==> s[j] != s[i]
    ensures multiset(s)[s[i]] == 1
  {
    assert s == s[..i] + [s[i]] + s[i + 1..];
    assert s[i] !in s[..i];
    assert s[i] !in s[i + 1..];
  }

  /** Of two records with equal scores the one the classifier listed first
      is ranked first, also when only one of them is kept. */
  lemma TieExample(a: Entry, b: Entry, c: Entry)
    requires a.score == b.score < c.score
    ensures SortDesc([a, b, c]) == [c, a, b]
    ensures TopK([a, b, c], 2) == [c, a]
  {
    TieSorted(a, b, c);
  }

  lemma TieSorted(a: Entry, b: Entry, c: Entry)
    requires a.score == b.score < c.score
    ensures SortDesc([a, b, c]) == [c, a, b]
  {
    LowerFirst(b, c);
    assert [a, b, c][1..] == [b, c];
    assert Insert(a, [b]) == [a, b];
    assert Insert(a, [c, b]) == [c] + Insert(a, [b]);
  }

  lemma LowerFirst(b: Entry, c: Entry)
    requires b.score < c.score
    ensures SortDesc([b, c]) == [c, b]
  {
    assert [b, c][1..] == [c];
    assert SortDesc([c]) == [c] by {
      assert [c][1..] == [];
    }
    assert Insert(b, [c]) == [c] + Insert(b, []);
  }
}
