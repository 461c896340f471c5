/**
 Tokenizing a corpus the way `String.split(" ")` does in Java, and joining
 tokens back together with single spaces.

 `Fields` is the plain split at every space, keeping every empty field;
 `Split` is Java's version of it, which returns the whole string when there
 is no space and otherwise drops the empty fields at the end.
 */
module Strings {

  /** The pieces of `s` between consecutive spaces, empty pieces included. */
  function Fields(s: string): (r: seq<string>)
    ensures |r| >= 1
    ensures forall i | 0 <= i < |r| :: ' ' !in r[i]
    decreases |s|
  {
    if |s| == 0 then [""]
    else
      var rest := Fields(s[1..]);
      if s[0] == ' ' then [""] + rest
      else [[s[0]] + rest[0]] + rest[1..]
  }

  /** The words of `ws` separated by single spaces, with no leading or trailing separator. */
  function Join(ws: seq<string>): string
  {
    if |ws| == 0 then ""
    else if |ws| == 1 then ws[0]
    else ws[0] + " " + Join(ws[1..])
  }

  /** Drops the empty strings at the end of `fs`, and nothing else. */
  function TrimTrailingEmpty(fs: seq<string>): (r: seq<string>)
    ensures r <= fs
    ensures |r| == 0 || r[|r| - 1] != ""
    ensures forall i | |r| <= i < |fs| :: fs[i] == ""
  {
    if |fs| > 0 && fs[|fs| - 1] == "" then TrimTrailingEmpty(fs[..|fs| - 1]) else fs
  }

  /** `s.split(" ")` in Java: the string itself when it holds no space, and
      otherwise its fields with the trailing empty ones removed. */
  function Split(s: string): (r: seq<string>)
    ensures forall i | 0 <= i < |r| :: ' ' !in r[i]
    ensures ' ' !in s ==> |r| == 1
    ensures ' ' in s ==> |r| == 0 || r[|r| - 1] != ""
  {
    if ' ' !in s then [s] else TrimTrailingEmpty(Fields(s))
  }

  lemma {:induction false} JoinSnoc(p: seq<string>, w: string)
    requires |p| >= 1
    ensures Join(p + [w]) == Join(p) + " " + w
    decreases |p|
  {
    if |p| == 1 {
      assert p + [w] == [p[0], w];
      assert [p[0], w][1..] == [w];
    } else {
      assert (p + [w])[1..] == p[1..] + [w];
      JoinSnoc(p[1..], w);
    }
  }

  /** Joining the fields of a string gives the string back. */
  lemma {:induction false} JoinFields(s: string)
    ensures Join(Fields(s)) == s
    decreases |s|
  {
    if |s| > 0 {
      var t := s[1..];
      var rest := Fields(t);
      var fs := Fields(s);
      JoinFields(t);
      assert s == [s[0]] + t;
      if s[0] == ' ' {
        assert fs == [""] + rest;
        assert fs[1..] == rest;
      } else if |rest| == 1 {
        assert fs == [[s[0]] + rest[0]];
      } else {
        assert fs[0] == [s[0]] + rest[0];
        assert fs[1..] == rest[1..];
        assert Join(fs) == fs[0] + " " + Join(fs[1..]);
        assert Join(rest) == rest[0] + " " + Join(rest[1..]);
      }
    }
  }

  /** A leading run without spaces glues onto the first field of what follows. */
  lemma {:induction false} FieldsPrefix(w: string, t: string)
    requires ' ' !in w
    ensures Fields(w + t) == [w + Fields(t)[0]] + Fields(t)[1..]
    decreases |w|
  {
    if |w| == 0 {
      var ft := Fields(t);
      assert w + t == t;
      assert w + ft[0] == ft[0];
      assert ft == [ft[0]] + ft[1..];
    } else {
      assert (w + t)[0] == w[0];
      assert (w + t)[1..] == w[1..] + t;
      assert ' ' !in w[1..] by {
        forall i | 0 <= i < |w[1..]| ensures w[1..][i] != ' ' {
          assert w[1..][i] == w[i + 1];
        }
      }
      FieldsPrefix(w[1..], t);
      assert [w[0]] + (w[1..] + Fields(t)[0]) == w + Fields(t)[0];
    }
  }

  /** Splitting words that contain no space after joining them gives the words back. */
  lemma {:induction false} FieldsJoin(ws: seq<string>)
    requires |ws| >= 1
    requires forall i | 0 <= i < |ws| :: ' ' !in ws[i]
    ensures Fields(Join(ws)) == ws
    decreases |ws|
  {
    if |ws| == 1 {
      FieldsPrefix(ws[0], "");
      assert ws[0] + "" == ws[0];
    } else {
      var j := Join(ws[1..]);
      FieldsJoin(ws[1..]);
      var t := " " + j;
      assert t[1..] == j;
      assert Fields(t) == [""] + Fields(j);
      FieldsPrefix(ws[0], t);
      assert ws[0] + " " + j == ws[0] + t;
      assert ws[0] + "" == ws[0];
      assert ws == [ws[0]] + ws[1..];
    }
  }

  /** Two or more words joined leave a space in the result. */
  lemma JoinHasSpace(ws: seq<string>)
    requires |ws| >= 2
    ensures ' ' in Join(ws)
  {
    assert Join(ws) == ws[0] + " " + Join(ws[1..]);
    assert Join(ws)[|ws[0]|] == ' ';
  }

  /** Java's split undoes a join of space-free words when there is one word
      or the last word is non-empty. */
  lemma SplitJoinInverse(ws: seq<string>)
    requires |ws| >= 1
    requires forall i | 0 <= i < |ws| :: ' ' !in ws[i]
    requires |ws| == 1 || ws[|ws| - 1] != ""
    ensures Split(Join(ws)) == ws
  {
    if |ws| == 1 {
      assert Join(ws) == ws[0];
    } else {
      JoinHasSpace(ws);
      FieldsJoin(ws);
      assert TrimTrailingEmpty(ws) == ws;
    }
  }

  /** ... and only then: with two or more words and an empty last word, the
      split drops that word, so the words do not come back. */
  lemma SplitJoinLosesEmptyLast(ws: seq<string>)
    requires |ws| >= 2 && ws[|ws| - 1] == ""
    ensures Split(Join(ws)) != ws
  {
    var j := Join(ws);
    JoinHasSpace(ws);
    LastTokenDiffers(Split(j), ws);
  }

  lemma LastTokenDiffers(r: seq<string>, ws: seq<string>)
    requires r == [] || r[|r| - 1] != ""
    requires |ws| >= 1 && ws[|ws| - 1] == ""
    ensures r != ws
  {
  }

  lemma {:induction false} JoinTrailingEmpty(fs: seq<string>, m: nat)
    requires m <= |fs|
    requires forall i | m <= i < |fs| :: fs[i] == ""
    ensures Join(fs[..m]) <= Join(fs)
    ensures forall i | |Join(fs[..m])| <= i < |Join(fs)| :: Join(fs)[i] == ' '
    decreases |fs|
  {
    if m == |fs| {
      assert fs[..m] == fs;
    } else {
      var p := fs[..|fs| - 1];
      assert fs == p + [""];
      assert p[..m] == fs[..m];
      JoinTrailingEmpty(p, m);
      if |p| >= 1 {
        JoinSnoc(p, "");
        assert Join(fs) == Join(p) + " ";
      } else {
        assert fs == [""];
      }
    }
  }

  /** Java's split loses only trailing spaces: joining its tokens gives a
      prefix of the input, and what the prefix leaves out is all spaces. */
  lemma SplitJoin(s: string)
    ensures Join(Split(s)) <= s
    ensures forall i | |Join(Split(s))| <= i < |s| :: s[i] == ' '
  {
    if ' ' in s {
      var fs := Fields(s);
      var r := TrimTrailingEmpty(fs);
      assert fs[..|r|] == r;
      JoinTrailingEmpty(fs, |r|);
      JoinFields(s);
    }
  }

  /** There is one more field than there are spaces. */
  lemma {:induction false} FieldsCount(s: string)
    ensures |Fields(s)| == multiset(s)[' '] + 1
    decreases |s|
  {
    if |s| > 0 {
      FieldsCount(s[1..]);
      assert s == [s[0]] + s[1..];
      assert multiset(s) == multiset{s[0]} + multiset(s[1..]);
    }
  }

  /** A string that does not end with a space has a non-empty last field. */
  lemma FieldsLast(s: string)
    requires |s| > 0 && s[|s| - 1] != ' '
    ensures Fields(s)[|Fields(s)| - 1] != ""
  {
    var fs := Fields(s);
    JoinFields(s);
    if |fs| > 1 {
      var p := fs[..|fs| - 1];
      assert fs == p + [fs[|fs| - 1]];
      JoinSnoc(p, fs[|fs| - 1]);
    }
  }

  /** On a non-empty input that does not end with a space, Java's split keeps
      every field: one more token than there are spaces. */
  lemma SplitNormalized(s: string)
    requires |s| > 0 && s[|s| - 1] != ' '
    ensures Split(s) == Fields(s)
    ensures |Split(s)| == multiset(s)[' '] + 1
  {
    FieldsCount(s);
    if ' ' in s {
      FieldsLast(s);
    } else {
      FieldsPrefix(s, "");
      assert s + "" == s;
    }
  }
}
