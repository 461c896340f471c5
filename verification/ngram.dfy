/**
 The n-gram iterator: a corpus is split on single spaces and then read as
 overlapping windows of `n` consecutive tokens, each window joined back by
 single spaces, from left to right.

 The window size is an unbounded `int`: a size of zero or less is not an
 error in the iterator, it yields empty grams (`|tokens| - n + 1` of them).
 */
module Grams {
  import opened Strings

  function Max0(x: int): nat
  {
    if x < 0 then 0 else x
  }

  /** The gram of `n` tokens starting at token `i`. */
  function Window(tokens: seq<string>, i: nat, n: int): string
    requires n <= 0 || i + n <= |tokens|
  {
    if n <= 0 then "" else Join(tokens[i..i + n])
  }

  /** The grams an iterator at position `pos` still has to yield. */
  function WindowsFrom(tokens: seq<string>, n: int, pos: nat): (r: seq<string>)
    ensures |r| == Max0(|tokens| - n + 1 - pos)
    ensures forall i | 0 <= i < |r| :: (n <= 0 || pos + i + n <= |tokens|) && r[i] == Window(tokens, pos + i, n)
    decreases |tokens| - n + 1 - pos
  {
    if pos < |tokens| - n + 1 then [Window(tokens, pos, n)] + WindowsFrom(tokens, n, pos + 1) else []
  }

  /** Every gram of a token sequence, in the order the iterator yields them. */
  function Windows(tokens: seq<string>, n: int): (r: seq<string>)
  {
    WindowsFrom(tokens, n, 0)
  }

  /** The grams an iterator built over `corpus` yields. */
  function GramsOf(corpus: string, n: int): seq<string>
  {
    Windows(Split(corpus), n)
  }

  /** Splitting a gram at its spaces gives back exactly its `n` tokens. */
  lemma WindowFields(tokens: seq<string>, i: nat, n: int)
    requires 1 <= n && i + n <= |tokens|
    requires forall k | 0 <= k < |tokens| :: ' ' !in tokens[k]
    ensures Fields(Window(tokens, i, n)) == tokens[i..i + n]
  {
    FieldsJoin(tokens[i..i + n]);
  }

  /** Java's split of a gram gives back its tokens too, provided the window
      has one token or its last token is non-empty (a trailing empty token
      after a space would be dropped by the split). */
  lemma WindowSplit(tokens: seq<string>, i: nat, n: int)
    requires 1 <= n && i + n <= |tokens|
    requires forall k | 0 <= k < |tokens| :: ' ' !in tokens[k]
    requires n == 1 || tokens[i + n - 1] != ""
    ensures Split(Window(tokens, i, n)) == tokens[i..i + n]
  {
    SplitJoinInverse(tokens[i..i + n]);
  }

  /** With a double space in the corpus, a gram can end in an empty token and
      then does not split back into its tokens: "a  b" at size 2 yields the
      gram "a ", whose split is just ["a"]. */
  lemma DoubleSpaceWindow(x: string, y: string)
    requires ' ' !in x && ' ' !in y && x != "" && y != ""
    ensures Split(x + "  " + y) == [x, "", y]
    ensures Windows(Split(x + "  " + y), 2)[0] == x + " "
    ensures Split(x + " ") == [x]
  {
    var t := [x, "", y];
    assert Join(t) == x + "  " + y by {
      assert t[1..] == ["", y] && ["", y][1..] == [y];
      assert Join(["", y]) == " " + y;
    }
    SplitJoinInverse(t);
    var g := Join([x, ""]);
    assert g == x + " " by {
      assert [x, ""][1..] == [""];
      assert Join([""]) == "";
      assert x + " " + "" == x + " ";
    }
    FieldsJoin([x, ""]);
    assert g[|x|] == ' ';
    assert TrimTrailingEmpty([x, ""]) == [x] by {
      assert [x, ""][..1] == [x];
    }
    assert t[0..2] == [x, ""];
  }

  /** The bigrams of three words. */
  lemma ThreeWordBigrams(x: string, y: string, z: string)
    requires ' ' !in x && ' ' !in y && ' ' !in z && z != ""
    ensures GramsOf(x + " " + y + " " + z, 2) == [x + " " + y, y + " " + z]
  {
    var t := [x, y, z];
    SplitJoinInverse(t);
    assert Join(t) == x + " " + y + " " + z by {
      assert t[1..] == [y, z];
      assert [y, z][1..] == [z];
      assert Join([y, z]) == y + " " + z;
      assert Join(t) == x + " " + Join([y, z]);
    }
    assert Split(x + " " + y + " " + z) == t;
    var w := Windows(t, 2);
    assert |w| == 2;
    assert t[0..2] == [x, y] && t[1..3] == [y, z];
    assert [x, y][1..] == [x, y][1..2];
    assert Join([x, y]) == x + " " + y && Join([y, z]) == y + " " + z;
  }

  /** Builds the gram starting at token `pos`, the way `next()` does, by
      appending each token preceded by a space unless it is the first one. */
  method BuildGram(tokens: seq<string>, pos: nat, n: int) returns (gram: string)
    requires n <= 0 || pos + n <= |tokens|
    ensures gram == Window(tokens, pos, n)
    ensures 1 <= n && (forall k | 0 <= k < |tokens| :: ' ' !in tokens[k]) ==> Fields(gram) == tokens[pos..pos + n]
  {
    var builder := "";
    var i := pos;
    while i < pos + n
      invariant (i == pos && builder == "") || (pos < i <= pos + n <= |tokens| && builder == Join(tokens[pos..i]))
      decreases pos + n - i
    {
      if i > pos {
        JoinSnoc(tokens[pos..i], tokens[i]);
        assert tokens[pos..i + 1] == tokens[pos..i] + [tokens[i]];
      }
      builder := builder + (if i > pos then " " else "") + tokens[i];
      i := i + 1;
    }
    gram := builder;
    if 1 <= n && (forall k | 0 <= k < |tokens| :: ' ' !in tokens[k]) {
      WindowFields(tokens, pos, n);
    }
  }

  /** Outcome of a `remove()` call: it completed, or it threw
      `UnsupportedOperationException`. */
  datatype RemoveOutcome = Removed | Unsupported

  /** A cursor over the tokens of one corpus. `produced` records, for the
      proof only, the grams yielded so far. */
  class NGram {
    var tokens: seq<string>
    var pos: nat
    var n: int
    ghost var produced: seq<string>

    ghost predicate Valid()
      reads this
    {
      && pos <= |Windows(tokens, n)|
      && produced == Windows(tokens, n)[..pos]
    }

    constructor (n: int, str: string)
      ensures Valid()
      ensures tokens == Split(str) && this.n == n && pos == 0 && produced == []
    {
      this.n := n;
      tokens := Split(str);
      pos := 0;
      produced := [];
    }

    /** Whether another gram fits: the window starting at the cursor ends
        within the tokens. */
    function HasNext(): (b: bool)
      reads this
      ensures b <==> pos + n <= |tokens|
      ensures Valid() ==> (b <==> pos < |Windows(tokens, n)|)
    {
      pos < |tokens| - n + 1
    }

    /** Yields the gram at the cursor and moves the cursor one token on. */
    method Next() returns (gram: string)
      requires Valid() && HasNext()
      modifies this
      ensures Valid()
      ensures tokens == old(tokens) && n == old(n) && pos == old(pos) + 1
      ensures gram == Window(tokens, old(pos), n)
      ensures produced == old(produced) + [gram]
    {
      gram := BuildGram(tokens, pos, n);
      ghost var all := Windows(tokens, n);
      assert all[pos] == gram;
      assert all[..pos + 1] == all[..pos] + [gram];
      pos := pos + 1;
      produced := produced + [gram];
    }

    /** Removal is not supported: the call always fails and, reading no
        state and writing none, leaves the cursor where it is. */
    function Remove(): (r: RemoveOutcome)
      ensures r.Unsupported?
    {
      Unsupported
    }
  }

  /** Drives a fresh iterator over `str` until `hasNext()` is false and
      returns what it yielded: exactly `max(0, T - n + 1)` grams, the `i`-th
      starting at token `i`. */
  method Drain(n: int, str: string) returns (grams: seq<string>)
    ensures |grams| == Max0(|Split(str)| - n + 1)
    ensures forall i | 0 <= i < |grams| :: (n <= 0 || i + n <= |Split(str)|) && grams[i] == Window(Split(str), i, n)
    ensures grams == GramsOf(str, n)
  {
    var it := new NGram(n, str);
    grams := [];
    while it.HasNext()
      invariant it.Valid() && it.tokens == Split(str) && it.n == n
      invariant grams == it.produced
      decreases |Windows(it.tokens, it.n)| - it.pos
    {
      var g := it.Next();
      grams := grams + [g];
    }
    assert grams == Windows(it.tokens, n)[..it.pos];
  }
}
