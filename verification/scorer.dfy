/**
 The frequency scorer: one n-gram iterator per corpus feeds a single count
 map, and every gram counted exactly once is then removed.

 Only raw frequency is computed. The selector values of the other scoring
 methods exist, but every selector leads to the same map.
 */
module Scorer {
  import opened Strings
  import opened Grams

  /** The scoring methods and the integers that select them. */
  datatype Type = RawFrequency | RelativeFrequency | StringDistance | TfIdf
  {
    function Value(): (v: int)
      ensures 0 <= v <= 3
      ensures v == 0 <==> this.RawFrequency?
    {
      match this
      case RawFrequency => 0
      case RelativeFrequency => 1
      case StringDistance => 2
      case TfIdf => 3
    }
  }

  /** Counts one more occurrence of `gram`: a new gram enters with count 1. */
  function Bump(counts: map<string, nat>, gram: string): (r: map<string, nat>)
    ensures r.Keys == counts.Keys + {gram}
    ensures r[gram] == (if gram in counts then counts[gram] else 0) + 1
    ensures forall g | g in counts && g != gram :: r[g] == counts[g]
  {
    if gram !in counts then counts[gram := 1] else counts[gram := counts[gram] + 1]
  }

  /** The count map after a counting loop has consumed `grams`, starting
      from `counts`: each gram's count grows by its occurrences in `grams`. */
  function Tally(counts: map<string, nat>, grams: seq<string>): (r: map<string, nat>)
    ensures forall g :: g in r <==> g in counts || g in grams
    ensures forall g | g in r :: r[g] == (if g in counts then counts[g] else 0) + multiset(grams)[g]
    decreases |grams|
  {
    if grams == [] then counts
    else
      var last := grams[|grams| - 1];
      assert grams == grams[..|grams| - 1] + [last];
      Bump(Tally(counts, grams[..|grams| - 1]), last)
  }

  /** Counting one more gram at the end is one more `Bump`. */
  lemma TallySnoc(counts: map<string, nat>, grams: seq<string>, gram: string)
    ensures Tally(counts, grams + [gram]) == Bump(Tally(counts, grams), gram)
  {
    assert (grams + [gram])[..|grams|] == grams;
  }

  /** The sum of all counts of a map. */
  ghost function Total(m: map<string, nat>): nat
    decreases m.Keys
  {
    if m == map[] then 0
    else
      var k :| k in m;
      m[k] + Total(m - {k})
  }

  /** The sum does not depend on which key is taken out first. */
  lemma {:induction false} TotalRemove(m: map<string, nat>, k: string)
    requires k in m
    ensures Total(m) == m[k] + Total(m - {k})
    decreases m.Keys
  {
    var j :| j in m && Total(m) == m[j] + Total(m - {j});
    if j != k {
      var mj := m - {j};
      var mk := m - {k};
      TotalRemove(mj, k);
      TotalRemove(mk, j);
      assert mj - {k} == mk - {j};
    }
  }

  lemma TotalBump(m: map<string, nat>, gram: string)
    ensures Total(Bump(m, gram)) == Total(m) + 1
  {
    var r := Bump(m, gram);
    TotalRemove(r, gram);
    assert r - {gram} == m - {gram};
    if gram in m {
      TotalRemove(m, gram);
    } else {
      assert m - {gram} == m;
    }
  }

  /** Counting a sequence of grams adds its length to the sum of counts. */
  lemma {:induction false} TotalTally(m: map<string, nat>, grams: seq<string>)
    ensures Total(Tally(m, grams)) == Total(m) + |grams|
    decreases |grams|
  {
    if grams != [] {
      var init := grams[..|grams| - 1];
      TotalTally(m, init);
      TotalBump(Tally(m, init), grams[|grams| - 1]);
    }
  }

  /** The combined occurrences of each gram in the two corpora. */
  function Occurrences(srcCorp: string, dstCorp: string, gramSize: int): multiset<string>
  {
    multiset(GramsOf(srcCorp, gramSize)) + multiset(GramsOf(dstCorp, gramSize))
  }

  /** The grams occurring at least twice, each with its number of occurrences. */
  function Recurring(occ: multiset<string>): map<string, nat>
  {
    map g | g in occ && occ[g] >= 2 :: occ[g]
  }

  /** A gram is kept exactly when it occurs at least twice, with its count. */
  lemma RecurringKeys(occ: multiset<string>)
    ensures forall g :: g in Recurring(occ) <==> occ[g] >= 2
    ensures forall g | g in Recurring(occ) :: Recurring(occ)[g] == occ[g] >= 2
  {
  }

  /** The map the scorer returns, stated without its loops: every gram that
      occurs at least twice across both corpora, with its number of
      occurrences. */
  function ScoreOf(srcCorp: string, dstCorp: string, gramSize: int): map<string, nat>
  {
    Recurring(Occurrences(srcCorp, dstCorp, gramSize))
  }

  /** Counting `src` and then `dst` from an empty map counts every gram of
      both. */
  lemma CountBoth(src: seq<string>, dst: seq<string>)
    ensures var counts := Tally(Tally(map[], src), dst);
      && (forall g :: g in counts <==> g in multiset(src) + multiset(dst))
      && (forall g | g in counts :: counts[g] == multiset(src)[g] + multiset(dst)[g])
  {
    var counts := Tally(Tally(map[], src), dst);
    forall g
      ensures g in counts <==> g in multiset(src) + multiset(dst)
    {
      assert g in src <==> g in multiset(src);
      assert g in dst <==> g in multiset(dst);
    }
  }

  /** The counts add up to the number of grams counted. */
  lemma CountBothTotal(src: seq<string>, dst: seq<string>)
    ensures Total(Tally(Tally(map[], src), dst)) == |src| + |dst|
  {
    TotalTally(map[], src);
    TotalTally(Tally(map[], src), dst);
    assert Total(map[]) == 0;
  }

  /** What the combined count map means: each gram's count is its
      occurrences among the source grams plus those among the destination
      grams, and the counts add up to the number of grams of both corpora. */
  lemma CombinedCounts(srcCorp: string, dstCorp: string, gramSize: int)
    ensures var counts := Tally(Tally(map[], GramsOf(srcCorp, gramSize)), GramsOf(dstCorp, gramSize));
      && (forall g :: g in counts <==> g in Occurrences(srcCorp, dstCorp, gramSize))
      && (forall g | g in counts :: counts[g] == multiset(GramsOf(srcCorp, gramSize))[g] + multiset(GramsOf(dstCorp, gramSize))[g])
      && Total(counts) == Max0(|Split(srcCorp)| - gramSize + 1) + Max0(|Split(dstCorp)| - gramSize + 1)
  {
    CountBoth(GramsOf(srcCorp, gramSize), GramsOf(dstCorp, gramSize));
    CountBothTotal(GramsOf(srcCorp, gramSize), GramsOf(dstCorp, gramSize));
  }

  /** Removing the grams counted once from the map that counted `src` and
      then `dst` leaves the grams occurring at least twice in both together. */
  lemma DropSingles(src: seq<string>, dst: seq<string>, counts: map<string, nat>)
    requires counts == Tally(Tally(map[], src), dst)
    ensures counts - (set key | key in counts && counts[key] == 1) == Recurring(multiset(src) + multiset(dst))
  {
    CountBoth(src, dst);
    DropSinglesOfCount(counts, multiset(src) + multiset(dst));
  }

  lemma DropSinglesOfCount(counts: map<string, nat>, occ: multiset<string>)
    requires forall g :: g in counts <==> g in occ
    requires forall g | g in counts :: counts[g] == occ[g]
    ensures counts - (set key | key in counts && counts[key] == 1) == Recurring(occ)
  {
    var kept := counts - (set key | key in counts && counts[key] == 1);
    var want := Recurring(occ);
    RecurringKeys(occ);
    forall g
      ensures g in kept <==> g in want
    {
      if g in counts {
        assert counts[g] == occ[g];
      }
    }
    assert kept.Keys == want.Keys;
  }

  /** Swapping the two corpora does not change the result. */
  lemma ScoreSymmetric(srcCorp: string, dstCorp: string, gramSize: int)
    ensures ScoreOf(srcCorp, dstCorp, gramSize) == ScoreOf(dstCorp, srcCorp, gramSize)
  {
    assert Occurrences(srcCorp, dstCorp, gramSize) == Occurrences(dstCorp, srcCorp, gramSize);
  }

  /** Every key of the result is a gram of one of the two corpora. */
  lemma ScoreKeysAreGrams(srcCorp: string, dstCorp: string, gramSize: int, g: string)
    requires g in ScoreOf(srcCorp, dstCorp, gramSize)
    ensures g in GramsOf(srcCorp, gramSize) || g in GramsOf(dstCorp, gramSize)
  {
    RecurringKeys(Occurrences(srcCorp, dstCorp, gramSize));
  }

  /** There is no intersection step: a gram repeated within one corpus is
      kept even when the other corpus never contains it. */
  lemma RepeatWithinOneCorpusKept(srcCorp: string, dstCorp: string, gramSize: int, g: string)
    requires multiset(GramsOf(srcCorp, gramSize))[g] >= 2
    ensures g in ScoreOf(srcCorp, dstCorp, gramSize)
    ensures g !in GramsOf(dstCorp, gramSize) ==> ScoreOf(srcCorp, dstCorp, gramSize)[g] == multiset(GramsOf(srcCorp, gramSize))[g]
  {
    RecurringKeys(Occurrences(srcCorp, dstCorp, gramSize));
  }

  /** Two three-word corpora whose first two words differ, and which differ
      only in their last word, keep the leading bigram only: "the quick fox"
      against "the quick dog" at size 2 gives {"the quick": 2}. */
  lemma SharedLeadingBigram(x: string, y: string, z: string, w: string)
    requires ' ' !in x && ' ' !in y && ' ' !in z && ' ' !in w
    requires z != "" && w != "" && x != y && z != w
    ensures ScoreOf(x + " " + y + " " + z, x + " " + y + " " + w, 2) == map[x + " " + y := 2]
  {
    var xy, yz, yw := x + " " + y, y + " " + z, y + " " + w;
    SharedLeadingOccurrences(x, y, z, w);
    BigramsDistinct(x, y, z, w);
    RecurringOnePair(xy, yz, yw);
  }

  lemma SharedLeadingOccurrences(x: string, y: string, z: string, w: string)
    requires ' ' !in x && ' ' !in y && ' ' !in z && ' ' !in w
    requires z != "" && w != ""
    ensures Occurrences(x + " " + y + " " + z, x + " " + y + " " + w, 2)
      == multiset{x + " " + y, x + " " + y, y + " " + z, y + " " + w}
  {
    ThreeWordBigrams(x, y, z);
    ThreeWordBigrams(x, y, w);
  }

  /** The leading bigram differs from both trailing ones, and the trailing
      ones differ when the last words do. */
  lemma BigramsDistinct(x: string, y: string, z: string, w: string)
    requires ' ' !in x && ' ' !in y && x != y && z != w
    ensures x + " " + y != y + " " + z && x + " " + y != y + " " + w
    ensures y + " " + z != y + " " + w
  {
    var xy, yz, yw := x + " " + y, y + " " + z, y + " " + w;
    assert xy != yz && xy != yw by {
      assert xy[..|x|] == x && yz[..|y|] == y && yw[..|y|] == y;
      if |x| == |y| {
        assert x != y;
      }
      assert xy[|x|] == ' ';
      assert yz[|y|] == ' ' && yw[|y|] == ' ';
    }
    assert yz != yw by {
      assert yz[|y| + 1..] == z && yw[|y| + 1..] == w;
    }
  }

  lemma RecurringOnePair(a: string, b: string, c: string)
    requires a != b && a != c && b != c
    ensures Recurring(multiset{a, a, b, c}) == map[a := 2]
  {
    var occ := multiset{a, a, b, c};
    RecurringKeys(occ);
    var r := Recurring(occ);
    forall g
      ensures g in r <==> g == a
    {
      if g != a {
        assert occ[g] <= 1;
      }
    }
    assert r.Keys == {a};
  }

  /** A source `x x` against a one-word destination `y` keeps `x` although
      the destination never says it: "a a" against "b" at size 1 gives
      {"a": 2}. */
  lemma RepeatedWordNotShared(x: string, y: string)
    requires ' ' !in x && ' ' !in y && x != "" && x != y
    ensures ScoreOf(x + " " + x, y, 1) == map[x := 2]
  {
    SplitJoinInverse([x, x]);
    assert Join([x, x]) == x + " " + x by {
      assert [x, x][1..] == [x];
    }
    assert Split(x + " " + x) == [x, x];
    assert Split(y) == [y];
    var wx := Windows([x, x], 1);
    assert [x, x][0..1] == [x] && [x, x][1..2] == [x];
    assert |wx| == 2 && wx[0] == Join([x]) && wx[1] == Join([x]);
    var wy := Windows([y], 1);
    assert [y][0..1] == [y];
    assert |wy| == 1 && wy[0] == Join([y]);
    assert wx == [x, x] && wy == [y];
    assert Occurrences(x + " " + x, y, 1) == multiset{x, x, y};
    RecurringOneRepeat(x, y);
  }

  lemma RecurringOneRepeat(a: string, b: string)
    requires a != b
    ensures Recurring(multiset{a, a, b}) == map[a := 2]
  {
    var occ := multiset{a, a, b};
    RecurringKeys(occ);
    var r := Recurring(occ);
    forall g
      ensures g in r <==> g == a
    {
      if g != a {
        assert occ[g] <= 1;
      }
    }
    assert r.Keys == {a};
  }

  /** One of the scorer's two counting loops: drains a fresh iterator,
      adding one to the count of every gram it yields. */
  method CountGrams(grams: NGram, conceptMap: map<string, nat>) returns (counts: map<string, nat>)
    requires grams.Valid() && grams.pos == 0
    modifies grams
    ensures grams.tokens == old(grams.tokens) && grams.n == old(grams.n)
    ensures counts == Tally(conceptMap, Windows(grams.tokens, grams.n))
  {
    counts := conceptMap;
    ghost var tokens, n := grams.tokens, grams.n;
    while grams.HasNext()
      invariant grams.Valid() && grams.tokens == tokens && grams.n == n
      invariant counts == Tally(conceptMap, grams.produced)
      decreases |Windows(tokens, n)| - grams.pos
    {
      ghost var before := grams.produced;
      var gram := grams.Next();
      TallySnoc(conceptMap, before, gram);
      counts := Bump(counts, gram);
    }
    assert grams.produced == Windows(tokens, n);
  }

  /** Scores two corpora: counts the grams of both into one map, drops the
      grams counted exactly once, and returns the map whatever `scoreBy`
      selects. */
  method Score(srcCorp: string, dstCorp: string, scoreBy: int, gramSize: int) returns (conceptMap: map<string, nat>)
    ensures forall g :: g in conceptMap <==> multiset(GramsOf(srcCorp, gramSize))[g] + multiset(GramsOf(dstCorp, gramSize))[g] >= 2
    ensures forall g | g in conceptMap :: conceptMap[g] == multiset(GramsOf(srcCorp, gramSize))[g] + multiset(GramsOf(dstCorp, gramSize))[g]
    ensures forall g | g in conceptMap :: conceptMap[g] >= 2
    ensures conceptMap == ScoreOf(srcCorp, dstCorp, gramSize)
  {
    conceptMap := map[];
    var srcGrams := new NGram(gramSize, srcCorp);
    var dstGrams := new NGram(gramSize, dstCorp);
    conceptMap := CountGrams(srcGrams, conceptMap);
    conceptMap := CountGrams(dstGrams, conceptMap);

    // Drop the grams counted exactly once.
    var toRemove := set key | key in conceptMap && conceptMap[key] == 1;
    DropSingles(GramsOf(srcCorp, gramSize), GramsOf(dstCorp, gramSize), conceptMap);
    conceptMap := conceptMap - toRemove;
    RecurringKeys(Occurrences(srcCorp, dstCorp, gramSize));

    if scoreBy == RawFrequency.Value() {
      return;
    }
    // The other scoring methods are not implemented; the same map is returned.
  }
}
