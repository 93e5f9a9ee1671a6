/**
 Article records and the accumulator they are collected in: the two
 duplicate policies the extractor applies, append-only accumulation under
 a policy, and the final truncation to a prefix.
 */
module Records {

  /** One extracted article: `{'title': ..., 'link': ...}`. */
  datatype Article = Article(title: string, link: string)

  /** The two duplicate checks of the extractor: the structural pass rejects
      a record only if the very same (title, link) pair is already present;
      the card pass rejects it if its title OR its link is already present. */
  datatype Policy = ExactPair | EitherField

  predicate Collides(p: Policy, existing: seq<Article>, a: Article)
  {
    match p
    case ExactPair => a in existing
    case EitherField => exists e :: e in existing && (e.title == a.title || e.link == a.link)
  }

  /** Appends `a` unless it collides with what is already there. */
  function Admit(p: Policy, acc: seq<Article>, a: Article): seq<Article>
  {
    if Collides(p, acc, a) then acc else acc + [a]
  }

  /** The accumulator after offering `recs`, in order, to `acc`. */
  function Accumulate(p: Policy, acc: seq<Article>, recs: seq<Article>): (r: seq<Article>)
    ensures |acc| <= |r| <= |acc| + |recs|
    ensures r[..|acc|] == acc
  {
    if recs == [] then acc
    else Admit(p, Accumulate(p, acc, recs[..|recs| - 1]), recs[|recs| - 1])
  }

  /** Everything in the accumulator was there before or was offered. */
  lemma {:induction false} AccumulateFrom(p: Policy, acc: seq<Article>, recs: seq<Article>)
    ensures forall a :: a in Accumulate(p, acc, recs) ==> a in acc || a in recs
    decreases |recs|
  {
    if recs != [] {
      var init := recs[..|recs| - 1];
      AccumulateFrom(p, acc, init);
      assert forall a :: a in init ==> a in recs;
    }
  }

  /** Offering `xs + ys` is offering `xs`, then `ys` to the result. */
  lemma {:induction false} AccumulateConcat(p: Policy, acc: seq<Article>, xs: seq<Article>, ys: seq<Article>)
    ensures Accumulate(p, acc, xs + ys) == Accumulate(p, Accumulate(p, acc, xs), ys)
    decreases |ys|
  {
    if ys == [] {
      assert xs + ys == xs;
    } else {
      var init := ys[..|ys| - 1];
      AccumulateConcat(p, acc, xs, init);
      assert (xs + ys)[..|xs + ys| - 1] == xs + init;
      assert (xs + ys)[|xs + ys| - 1] == ys[|ys| - 1];
    }
  }

  /** No record occurs twice. */
  predicate Distinct(s: seq<Article>)
  {
    forall i, j :: 0 <= i < j < |s| ==> s[i] != s[j]
  }

  /** Every record from position `k` on differs, in title and in link, from
      every record before it. */
  predicate FreshFrom(s: seq<Article>, k: nat)
  {
    forall i, j :: 0 <= i < j < |s| && k <= j ==> s[i].title != s[j].title && s[i].link != s[j].link
  }

  /** `a` is `b` with some elements left out, the rest kept in order. */
  predicate IsSubsequence(a: seq<Article>, b: seq<Article>)
    decreases |b|
  {
    if a == [] then true
    else if b == [] then false
    else
      (a[|a| - 1] == b[|b| - 1] && IsSubsequence(a[..|a| - 1], b[..|b| - 1])) ||
      IsSubsequence(a, b[..|b| - 1])
  }

  lemma {:induction false} SubsequenceExtend(a: seq<Article>, b: seq<Article>, x: Article)
    requires IsSubsequence(a, b)
    ensures IsSubsequence(a, b + [x]) && IsSubsequence(a + [x], b + [x])
  {
    assert (b + [x])[..|b|] == b;
    assert (a + [x])[..|a|] == a;
  }

  /** Either policy keeps the accumulator free of repeated records, so
      neither pass ever holds the same (title, link) pair twice. */
  lemma {:induction false} AccumulateKeepsDistinct(p: Policy, acc: seq<Article>, recs: seq<Article>)
    requires Distinct(acc)
    ensures Distinct(Accumulate(p, acc, recs))
    decreases |recs|
  {
    if recs != [] {
      var prev := Accumulate(p, acc, recs[..|recs| - 1]);
      var a := recs[|recs| - 1];
      AccumulateKeepsDistinct(p, acc, recs[..|recs| - 1]);
      if !Collides(p, prev, a) {
        assert a !in prev;
        var r := prev + [a];
        forall i, j | 0 <= i < j < |r| ensures r[i] != r[j] {
          if j == |prev| { assert r[i] == prev[i]; }
        }
      }
    }
  }

  /** Under the either-field policy every admitted record differs in title
      and in link from every record before it, those of `acc` included. */
  lemma {:induction false} EitherFieldAdmitsFresh(acc: seq<Article>, recs: seq<Article>, k: nat)
    requires FreshFrom(acc, k)
    ensures FreshFrom(Accumulate(EitherField, acc, recs), k)
    decreases |recs|
  {
    if recs != [] {
      var prev := Accumulate(EitherField, acc, recs[..|recs| - 1]);
      var a := recs[|recs| - 1];
      EitherFieldAdmitsFresh(acc, recs[..|recs| - 1], k);
      if !Collides(EitherField, prev, a) {
        var r := prev + [a];
        forall i, j | 0 <= i < j < |r| && k <= j
          ensures r[i].title != r[j].title && r[i].link != r[j].link
        {
          if j == |prev| {
            assert r[i] == prev[i] && prev[i] in prev;
          }
        }
      }
    }
  }

  /** The records an accumulation adds are some of the offered ones, in the
      order they were offered. */
  lemma {:induction false} AccumulateKeepsOrder(p: Policy, acc: seq<Article>, recs: seq<Article>)
    ensures IsSubsequence(Accumulate(p, acc, recs)[|acc|..], recs)
    decreases |recs|
  {
    var r := Accumulate(p, acc, recs);
    if recs == [] {
      assert r[|acc|..] == [];
    } else {
      var init := recs[..|recs| - 1];
      var a := recs[|recs| - 1];
      var prev := Accumulate(p, acc, init);
      assert r == Admit(p, prev, a);
      AccumulateKeepsOrder(p, acc, init);
      SubsequenceExtend(prev[|acc|..], init, a);
      assert init + [a] == recs;
      if Collides(p, prev, a) {
        assert r[|acc|..] == prev[|acc|..];
      } else {
        assert r[|acc|..] == prev[|acc|..] + [a];
      }
    }
  }

  /** Under the exact-pair policy two records with the same title and
      different links are both kept; under the either-field policy only the
      first is. */
  lemma SameTitlePolicies(t: string, l1: string, l2: string)
    requires l1 != l2
    ensures Accumulate(ExactPair, [], [Article(t, l1), Article(t, l2)]) == [Article(t, l1), Article(t, l2)]
    ensures Accumulate(EitherField, [], [Article(t, l1), Article(t, l2)]) == [Article(t, l1)]
  {
    var recs := [Article(t, l1), Article(t, l2)];
    assert recs[..1] == [Article(t, l1)];
    assert recs[..1][..0] == [];
    assert Article(t, l1) in [Article(t, l1)];
  }

  function Min(a: int, b: int): int
  {
    if a <= b then a else b
  }

  /** `s[:n]`: the first `min(n, |s|)` records of `s`, in order. */
  function Truncate(s: seq<Article>, n: nat): (r: seq<Article>)
    ensures |r| == Min(n, |s|)
    ensures r == s[..|r|]
  {
    if |s| <= n then s else s[..n]
  }

  lemma TruncateKeeps(s: seq<Article>, n: nat, k: nat)
    requires Distinct(s) && FreshFrom(s, k)
    ensures Distinct(Truncate(s, n)) && FreshFrom(Truncate(s, n), k)
  {
    var r := Truncate(s, n);
    assert forall i :: 0 <= i < |r| ==> r[i] == s[i];
  }
}
