/**
 * The request framer of `HandleRequest` (Program.cs:140-145): a line read
 * from the input pipe may hold several requests run together, and it is cut
 * into sub-requests at every occurrence of the output-path prefix that all
 * clients use.
 */
module Framing {
  import opened Options
  import opened Text

  /** The output-path prefix shared by every client; the framer cuts lines at it. */
  const Anchor: string := "/tmp/globvar-"

  /** The non-empty pieces of `fs`, in order (`StringSplitOptions.RemoveEmptyEntries`). */
  function NonEmpty(fs: seq<string>): (r: seq<string>)
    ensures |r| <= |fs|
    ensures forall k :: 0 <= k < |r| ==> r[k] != ""
    ensures forall x :: x in r <==> x in fs && x != ""
  {
    if fs == [] then [] else (if fs[0] == "" then [] else [fs[0]]) + NonEmpty(fs[1..])
  }

  /** `RemoveEmptyEntries` keeps every non-empty piece as often as it occurs: only the empty ones go. */
  lemma {:induction false} NonEmptyCounts(fs: seq<string>)
    ensures multiset(NonEmpty(fs)) == multiset(fs)["" := 0]
    ensures |NonEmpty(fs)| == |fs| - multiset(fs)[""]
    decreases |fs|
  {
    if fs != [] {
      assert fs == [fs[0]] + fs[1..];
      NonEmptyCounts(fs[1..]);
    }
  }

  /** `RemoveEmptyEntries` works piece by piece, so it keeps the order of the pieces. */
  lemma {:induction false} NonEmptyAppend(a: seq<string>, b: seq<string>)
    ensures NonEmpty(a + b) == NonEmpty(a) + NonEmpty(b)
    decreases |a|
  {
    if a == [] {
      assert a + b == b;
    } else {
      var x, rest := a[0], a[1..];
      assert a + b == [x] + (rest + b);
      NonEmptyCons(x, rest + b);
      NonEmptyAppend(rest, b);
    }
  }

  /** The first piece is kept when it is non-empty, ahead of the rest. */
  lemma NonEmptyCons(x: string, rest: seq<string>)
    ensures NonEmpty([x] + rest) == (if x == "" then [] else [x]) + NonEmpty(rest)
  {
    assert ([x] + rest)[0] == x && ([x] + rest)[1..] == rest;
  }


  /** `line.Split(Anchor, StringSplitOptions.RemoveEmptyEntries)`. */
  function Fragments(line: string): (r: seq<string>)
    ensures |r| <= |SplitOn(line, Anchor)|
    ensures forall x :: x in r <==> x in SplitOn(line, Anchor) && x != ""
  {
    NonEmpty(SplitOn(line, Anchor))
  }

  /** A line has as many fragments as its split on the anchor has non-empty pieces. */
  lemma FragmentCount(line: string)
    ensures |Fragments(line)| == |SplitOn(line, Anchor)| - multiset(SplitOn(line, Anchor))[""]
  {
    NonEmptyCounts(SplitOn(line, Anchor));
  }

  /** The sub-requests of a line: every fragment, the first one included, with the anchor put back in front. */
  function Frame(line: string): (r: seq<string>)
    ensures |r| == |Fragments(line)|
    ensures forall i :: 0 <= i < |r| ==> |r[i]| > |Anchor| && r[i][..|Anchor|] == Anchor
  {
    var fs := Fragments(line);
    seq(|fs|, i requires 0 <= i < |fs| => Anchor + fs[i])
  }

  /** The pieces concatenated in order. */
  function Concat(ss: seq<string>): string {
    if ss == [] then "" else ss[0] + Concat(ss[1..])
  }

  /**
   * The framing loop as the handler runs it: split the line, then rewrite
   * the array of fragments in place, prefixing each with the anchor.
   */
  method FrameRequests(line: string) returns (inputs: seq<string>)
    ensures |inputs| == |Fragments(line)|
    ensures forall i :: 0 <= i < |inputs| ==> inputs[i] == Anchor + Fragments(line)[i]
    ensures inputs == Frame(line)
  {
    var pieces := Fragments(line);
    var a := new string[|pieces|](i requires 0 <= i < |pieces| => pieces[i]);
    for i := 0 to a.Length
      invariant forall k :: 0 <= k < i ==> a[k] == Anchor + pieces[k]
      invariant forall k :: i <= k < a.Length ==> a[k] == pieces[k]
    {
      a[i] := Anchor + a[i];
    }
    inputs := a[..];
  }

  /** A list whose pieces are all non-empty loses nothing to `RemoveEmptyEntries`. */
  lemma {:induction false} NonEmptyKeepsAll(fs: seq<string>)
    requires forall k :: 0 <= k < |fs| ==> fs[k] != ""
    ensures NonEmpty(fs) == fs
  {
    if fs != [] {
      NonEmptyKeepsAll(fs[1..]);
    }
  }

  /** Prefixing each piece with the anchor and concatenating is joining with the anchor, plus one leading anchor. */
  lemma {:induction false} ConcatPrefixed(fs: seq<string>)
    requires fs != []
    ensures Concat(seq(|fs|, i requires 0 <= i < |fs| => Anchor + fs[i])) == Anchor + Join(fs, Anchor)
  {
    var ps := seq(|fs|, i requires 0 <= i < |fs| => Anchor + fs[i]);
    if |fs| > 1 {
      ConcatPrefixed(fs[1..]);
      assert ps[1..] == seq(|fs| - 1, i requires 0 <= i < |fs| - 1 => Anchor + fs[1..][i]);
    }
  }

  /** An occurrence in a suffix is an occurrence in the whole string, shifted. */
  lemma OccursInSuffix(s: string, d: nat, p: string, j: nat)
    requires d <= |s|
    ensures OccursAt(s[d..], p, j) <==> OccursAt(s, p, d + j)
  {
    if j + |p| <= |s| - d {
      assert s[d..][j..j + |p|] == s[d + j..d + j + |p|];
    }
  }

  /** Two adjacent occurrences make one occurrence of the concatenation. */
  lemma OccursTwice(s: string, p: string, q: string, i: int)
    requires OccursAt(s, p, i) && OccursAt(s, q, i + |p|)
    ensures OccursAt(s, p + q, i)
  {
    assert s[i..i + |p| + |q|] == s[i..i + |p|] + s[i + |p|..i + |p| + |q|];
  }

  /** A suffix of a string with no two anchors back to back and no trailing anchor has neither either. */
  lemma SuffixKeeps(s: string, d: nat)
    requires d <= |s| && !Contains(s, Anchor + Anchor) && !EndsWith(s, Anchor)
    ensures !Contains(s[d..], Anchor + Anchor)
    ensures !EndsWith(s[d..], Anchor)
  {
    var n := |Anchor|;
    forall j | 0 <= j <= |s[d..]|
      ensures !OccursAt(s[d..], Anchor + Anchor, j)
    {
      OccursInSuffix(s, d, Anchor + Anchor, j);
    }
    if |s| - d >= n {
      OccursInSuffix(s, d, Anchor, |s| - d - n);
    }
  }

  /**
   * After an anchor occurrence, if the rest neither starts nor ends with the
   * anchor and has no two anchors back to back, every piece is non-empty.
   */
  lemma {:induction false} InnerPiecesNonEmpty(s: string)
    requires s != "" && !OccursAt(s, Anchor, 0) && !EndsWith(s, Anchor)
    requires !Contains(s, Anchor + Anchor)
    ensures forall k :: 0 <= k < |SplitOn(s, Anchor)| ==> SplitOn(s, Anchor)[k] != ""
    decreases |s|
  {
    match Find(s, Anchor)
    case None =>
    case Some(i) =>
      var n := |Anchor|;
      var r := s[i + n..];
      assert s[..i] != "";
      assert r != "";
      OccursInSuffix(s, i + n, Anchor, 0);
      if OccursAt(s, Anchor, i + n) {
        OccursTwice(s, Anchor, Anchor, i);
        assert false;
      }
      SuffixKeeps(s, i + n);
      InnerPiecesNonEmpty(r);
  }

  /**
   * Framing loses nothing: a line that starts with the anchor, never has two
   * anchors back to back and does not end with the anchor is the
   * concatenation of its sub-requests.
   */
  lemma FrameRoundTrip(line: string)
    requires OccursAt(line, Anchor, 0)
    requires !Contains(line, Anchor + Anchor)
    requires !EndsWith(line, Anchor)
    ensures Concat(Frame(line)) == line
  {
    var n := |Anchor|;
    var s := line[n..];
    assert line == Anchor + s;
    assert Find(line, Anchor) == Some(0);
    assert SplitOn(line, Anchor) == [""] + SplitOn(s, Anchor);
    assert s != "";
    OccursInSuffix(line, n, Anchor, 0);
    if OccursAt(line, Anchor, n) {
      OccursTwice(line, Anchor, Anchor, 0);
      assert false;
    }
    SuffixKeeps(line, n);
    var pieces := SplitOn(s, Anchor);
    InnerPiecesNonEmpty(s);
    NonEmptyKeepsAll(pieces);
    assert Fragments(line) == pieces;
    ConcatPrefixed(pieces);
    SplitOnJoin(s, Anchor);
  }

  /** No fragment contains the anchor, so each sub-request holds it only at its start. */
  lemma FragmentsAnchorFree(line: string)
    ensures forall k :: 0 <= k < |Fragments(line)| ==> !Contains(Fragments(line)[k], Anchor)
  {
    SplitOnPiecesFree(line, Anchor);
    forall k | 0 <= k < |Fragments(line)|
      ensures !Contains(Fragments(line)[k], Anchor)
    {
      var f := Fragments(line)[k];
      assert f in Fragments(line);
      var i :| 0 <= i < |SplitOn(line, Anchor)| && SplitOn(line, Anchor)[i] == f;
    }
  }

  /** The words of a sub-request: `input.Trim().Split()`; runs of white space leave empty words behind. */
  function Words(sub: string): (words: seq<string>)
    ensures |words| >= 1
  {
    SplitWhite(Trim(sub))
  }

  /**
   * A framed sub-request always has a first word, and that word, the output
   * path, starts with the anchor: the `words.Length == 0` return of the
   * source can never be taken.
   */
  lemma SubRequestHasPath(f: string)
    ensures |Words(Anchor + f)| >= 1
    ensures Anchor <= Words(Anchor + f)[0]
  {
    TrimKeepsPrefix(Anchor + f, Anchor);
    SplitWhiteHead(Trim(Anchor + f), Anchor);
  }

  /** No proper suffix of the anchor is also a prefix of it, so two occurrences can never overlap. */
  lemma AnchorHasNoBorder(m: nat)
    requires 0 < m < |Anchor|
    ensures Anchor[|Anchor| - m..] != Anchor[..m]
  {
    var k := |Anchor| - m;
    assert Anchor[..m][0] == '/';
    if k == 4 {
      assert Anchor[k..][1] == 'g' && Anchor[..m][1] == 't';
    } else {
      assert k in {1, 2, 3, 5, 6, 7, 8, 9, 10, 11, 12};
      assert Anchor[k..][0] == Anchor[k] != '/';
    }
  }

  /** In `x + Anchor + y`, with no anchor inside `x`, the first anchor found is the one right after `x`. */
  lemma FindAfterPiece(x: string, y: string)
    requires !Contains(x, Anchor)
    ensures Find(x + Anchor + y, Anchor) == Some(|x|)
  {
    var s := x + Anchor + y;
    var n := |Anchor|;
    assert s[|x|..|x| + n] == Anchor;
    forall k | 0 <= k < |x|
      ensures !OccursAt(s, Anchor, k)
    {
      if k + n <= |x| {
        assert s[k..k + n] == x[k..k + n];
        assert !OccursAt(x, Anchor, k);
      } else {
        var m := k + n - |x|;
        assert s[|x|..k + n] == Anchor[..m];
        assert s[|x|..k + n] == s[k..k + n][n - m..];
        AnchorHasNoBorder(m);
      }
    }
    var r := Find(s, Anchor);
    assert OccursAt(s, Anchor, |x|);
    assert r.Some?;
    assert !(r.value < |x|);
    assert !(r.value > |x|);
  }

  /** Splitting undoes joining with the anchor, when no piece contains the anchor. */
  lemma {:induction false} SplitOnJoinInverse(xs: seq<string>)
    requires xs != []
    requires forall k :: 0 <= k < |xs| ==> !Contains(xs[k], Anchor)
    ensures SplitOn(Join(xs, Anchor), Anchor) == xs
    decreases |xs|
  {
    if |xs| == 1 {
      assert Join(xs, Anchor) == xs[0];
    } else {
      var rest := Join(xs[1..], Anchor);
      assert Join(xs, Anchor) == xs[0] + Anchor + rest;
      FindAfterPiece(xs[0], rest);
      assert (xs[0] + Anchor + rest)[|xs[0]| + |Anchor|..] == rest;
      SplitOnJoinInverse(xs[1..]);
    }
  }

  /**
   * Framing recovers requests that were run together: writing non-empty,
   * anchor-free requests one after the other, each behind the anchor, and
   * framing the result gives back exactly those sub-requests.
   */
  lemma FrameOfConcatenation(xs: seq<string>)
    requires xs != []
    requires forall k :: 0 <= k < |xs| ==> xs[k] != "" && !Contains(xs[k], Anchor)
    ensures Frame(Concat(seq(|xs|, i requires 0 <= i < |xs| => Anchor + xs[i])))
         == seq(|xs|, i requires 0 <= i < |xs| => Anchor + xs[i])
  {
    ConcatPrefixed(xs);
    var pieces := [""] + xs;
    assert Join(pieces, Anchor) == Anchor + Join(xs, Anchor);
    assert !Contains("", Anchor);
    SplitOnJoinInverse(pieces);
    assert NonEmpty(pieces) == NonEmpty(xs);
    NonEmptyKeepsAll(xs);
  }

  /** Two requests run together on one line are framed into exactly those two sub-requests. */
  lemma TwoRequestsOneLine(x: string, y: string)
    requires x != "" && y != "" && !Contains(x, Anchor) && !Contains(y, Anchor)
    ensures Frame(Anchor + x + Anchor + y) == [Anchor + x, Anchor + y]
  {
    var xs := [x, y];
    FrameOfConcatenation(xs);
    var ps := seq(|xs|, i requires 0 <= i < |xs| => Anchor + xs[i]);
    assert ps == [Anchor + x, Anchor + y];
    assert ps[1..] == [Anchor + y] && ps[1..][1..] == [];
    assert Concat(ps[1..]) == (Anchor + y) + Concat([]);
    assert Concat(ps) == (Anchor + x) + Concat(ps[1..]);
    assert (Anchor + x) + ((Anchor + y) + "") == Anchor + x + Anchor + y;
  }

  /** The white-space split of `path`, two spaces, `verb`, a space and `key`. */
  lemma SplitDoubleSpace(path: string, verb: string, key: string)
    requires NoWhite(path) && NoWhite(verb) && NoWhite(key)
    ensures SplitWhite(path + [' '] + ([' '] + (verb + [' '] + key))) == [path, "", verb, key]
  {
    var tail := [' '] + (verb + [' '] + key);
    SplitTwoWords(verb, key);
    SplitWhiteLead(' ', verb + [' '] + key);
    SplitWhiteCut(path, ' ', tail);
    assert [path] + ([""] + [verb, key]) == [path, "", verb, key];
  }

  /** Two words with one space between them. */
  lemma SplitTwoWords(verb: string, key: string)
    requires NoWhite(verb) && NoWhite(key)
    ensures SplitWhite(verb + [' '] + key) == [verb, key]
  {
    SplitWhiteCut(verb, ' ', key);
    SplitWhiteSingle(key);
  }

  /** A leading white-space character gives an empty first piece. */
  lemma SplitWhiteLead(c: char, b: string)
    requires IsWhite(c)
    ensures SplitWhite([c] + b) == [""] + SplitWhite(b)
  {
    assert ([c] + b)[1..] == b;
  }

  /** Two spaces in a row leave an empty word behind, which then counts as a word: here it takes the verb's place. */
  lemma DoubleSpaceEmptyWord(path: string, verb: string, key: string)
    requires path != [] && key != [] && NoWhite(path) && NoWhite(verb) && NoWhite(key)
    ensures Words(path + "  " + verb + " " + key) == [path, "", verb, key]
    ensures |Words(path + "  " + verb + " " + key)| == 4 && Words(path + "  " + verb + " " + key)[1] == ""
  {
    var s := path + [' '] + ([' '] + (verb + [' '] + key));
    assert path + "  " + verb + " " + key == s;
    assert Trim(s) == s by {
      assert s[0] == path[0] && s[|s| - 1] == key[|key| - 1];
      TrimUnchanged(s);
    }
    SplitDoubleSpace(path, verb, key);
    var expected := [path, "", verb, key];
    assert expected[1] == "";
  }
}
