/**
 * The .NET string operations the request handler relies on, written out:
 * `Char.IsWhiteSpace`, `String.Trim`, `String.Split()` (split on every
 * white-space character, empty entries kept) and
 * `String.Split(string, RemoveEmptyEntries)` (split on a separator string).
 */
module Text {
  import opened Options

  /** `Char.IsWhiteSpace`: the Unicode separators, U+0009 to U+000D and U+0085. */
  predicate IsWhite(c: char) {
    c == ' ' || ('\t' <= c <= '\r') || c == '\U{85}' || c == '\U{A0}' || c == '\U{1680}'
    || ('\U{2000}' <= c <= '\U{200A}') || c == '\U{2028}' || c == '\U{2029}'
    || c == '\U{202F}' || c == '\U{205F}' || c == '\U{3000}'
  }

  /** No character of `s` is white space. */
  predicate NoWhite(s: string) {
    forall i :: 0 <= i < |s| ==> !IsWhite(s[i])
  }

  /** `!String.IsNullOrWhiteSpace(s)` for a non-null `s`. */
  predicate HasContent(s: string) {
    exists i :: 0 <= i < |s| && !IsWhite(s[i])
  }

  /** `String.TrimStart()`: drop the leading white space. */
  function TrimStart(s: string): (r: string)
    ensures |r| <= |s| && r == s[|s| - |r|..]
    ensures forall i :: 0 <= i < |s| - |r| ==> IsWhite(s[i])
    ensures r != [] ==> !IsWhite(r[0])
    decreases |s|
  {
    if |s| > 0 && IsWhite(s[0]) then TrimStart(s[1..]) else s
  }

  /** `String.TrimEnd()`: drop the trailing white space. */
  function TrimEnd(s: string): (r: string)
    ensures |r| <= |s| && r == s[..|r|]
    ensures forall i :: |r| <= i < |s| ==> IsWhite(s[i])
    ensures r != [] ==> !IsWhite(r[|r| - 1])
    decreases |s|
  {
    if |s| > 0 && IsWhite(s[|s| - 1]) then TrimEnd(s[..|s| - 1]) else s
  }

  /** `String.Trim()`. */
  function Trim(s: string): (r: string)
    ensures r != [] ==> !IsWhite(r[0]) && !IsWhite(r[|r| - 1])
    ensures r == [] <==> !HasContent(s)
  {
    TrimEnd(TrimStart(s))
  }

  /** `String.Split()` with no separators: cut at every white-space character, keeping empty pieces. */
  function SplitWhite(s: string): (r: seq<string>)
    ensures |r| >= 1
    ensures forall k :: 0 <= k < |r| ==> NoWhite(r[k])
    decreases |s|
  {
    if s == [] then [""]
    else
      var rest := SplitWhite(s[1..]);
      if IsWhite(s[0]) then [""] + rest
      else [[s[0]] + rest[0]] + rest[1..]
  }

  /** The pieces joined with `sep` between consecutive ones (`String.Join`). */
  function Join(ws: seq<string>, sep: string): string {
    if ws == [] then ""
    else ws[0] + (if |ws| == 1 then "" else sep + Join(ws[1..], sep))
  }

  /** Every white-space character replaced by a plain space. */
  function Normalize(s: string): (r: string)
    ensures |r| == |s|
  {
    seq(|s|, i requires 0 <= i < |s| => if IsWhite(s[i]) then ' ' else s[i])
  }

  /** The pieces of `String.Split()`, joined by single spaces, give back the input with its white space normalised. */
  lemma {:induction false} SplitWhiteJoin(s: string)
    ensures Join(SplitWhite(s), " ") == Normalize(s)
    decreases |s|
  {
    if s != [] {
      var rest := SplitWhite(s[1..]);
      SplitWhiteJoin(s[1..]);
      assert Normalize(s) == [Normalize(s)[0]] + Normalize(s[1..]);
      if !IsWhite(s[0]) {
        var r := SplitWhite(s);
        assert r[0] == [s[0]] + rest[0] && r[1..] == rest[1..];
        assert Join(r, " ") == [s[0]] + Join(rest, " ");
      }
    }
  }

  /** A white-space-free prefix of `s` is a prefix of the first piece of `String.Split()`. */
  lemma {:induction false} SplitWhiteHead(s: string, p: string)
    requires p <= s && NoWhite(p)
    ensures p <= SplitWhite(s)[0]
    decreases |p|
  {
    if p != [] {
      SplitWhiteHead(s[1..], p[1..]);
    }
  }

  /** A prefix of `s` that ends in a non-white character survives `String.Trim()`. */
  lemma TrimKeepsPrefix(s: string, p: string)
    requires p <= s && |p| > 0 && !IsWhite(p[0]) && !IsWhite(p[|p| - 1])
    ensures p <= Trim(s)
  {
    assert TrimStart(s) == s;
    assert s[|p| - 1] == p[|p| - 1];
  }

  /** `p` occurs in `s` starting at index `i`. */
  predicate OccursAt(s: string, p: string, i: int) {
    0 <= i && i + |p| <= |s| && s[i..i + |p|] == p
  }

  /** `p` occurs somewhere in `s`. */
  predicate Contains(s: string, p: string) {
    exists i :: 0 <= i <= |s| && OccursAt(s, p, i)
  }

  /** `s` ends with `p`. */
  predicate EndsWith(s: string, p: string) {
    OccursAt(s, p, |s| - |p|)
  }

  /** The first occurrence of `p` in `s`, if any. */
  function Find(s: string, p: string): (r: Option<nat>)
    requires |p| > 0
    ensures r.Some? ==> OccursAt(s, p, r.value) && forall k :: 0 <= k < r.value ==> !OccursAt(s, p, k)
    ensures r.None? ==> forall k :: !OccursAt(s, p, k)
    decreases |s|
  {
    if |s| < |p| then None
    else if s[..|p|] == p then Some(0)
    else
      match Find(s[1..], p)
      case None =>
        assert forall k :: k > 0 ==> !OccursAt(s, p, k) by {
          forall k | k > 0 { OccursShift(s, p, k); }
        }
        None
      case Some(i) =>
        assert forall k :: 0 < k <= i + 1 ==> (OccursAt(s, p, k) <==> OccursAt(s[1..], p, k - 1)) by {
          forall k | 0 < k <= i + 1 { OccursShift(s, p, k); }
        }
        Some(i + 1)
  }

  /** An occurrence after the first character is an occurrence in the tail, one place earlier. */
  lemma OccursShift(s: string, p: string, k: int)
    requires s != [] && k > 0
    ensures OccursAt(s, p, k) <==> OccursAt(s[1..], p, k - 1)
  {
    if k + |p| <= |s| {
      assert s[1..][k - 1..k - 1 + |p|] == s[k..k + |p|];
    }
  }

  /** `String.Split(p)`: the pieces of `s` between non-overlapping occurrences of `p`, found left to right; empty pieces kept. */
  function SplitOn(s: string, p: string): (r: seq<string>)
    requires |p| > 0
    ensures |r| >= 1
    decreases |s|
  {
    match Find(s, p)
    case None => [s]
    case Some(i) => [s[..i]] + SplitOn(s[i + |p|..], p)
  }

  /** Joining the pieces of `String.Split(p)` with `p` gives back the input. */
  lemma {:induction false} SplitOnJoin(s: string, p: string)
    requires |p| > 0
    ensures Join(SplitOn(s, p), p) == s
    decreases |s|
  {
    match Find(s, p)
    case None =>
    case Some(i) =>
      var rest := s[i + |p|..];
      var pieces := SplitOn(rest, p);
      SplitOnJoin(rest, p);
      assert SplitOn(s, p) == [s[..i]] + pieces;
      assert ([s[..i]] + pieces)[1..] == pieces;
      assert Join(SplitOn(s, p), p) == s[..i] + (p + rest);
      assert s == s[..i] + (p + rest);
  }

  /** No piece of `String.Split(p)` contains `p`. */
  lemma {:induction false} SplitOnPiecesFree(s: string, p: string)
    requires |p| > 0
    ensures forall k :: 0 <= k < |SplitOn(s, p)| ==> !Contains(SplitOn(s, p)[k], p)
    decreases |s|
  {
    match Find(s, p)
    case None =>
    case Some(i) =>
      SplitOnPiecesFree(s[i + |p|..], p);
      forall j | OccursAt(s[..i], p, j)
        ensures false
      {
        assert s[..i][j..j + |p|] == s[j..j + |p|];
        assert OccursAt(s, p, j) && j < i;
      }
  }

  /** Appending one more piece to a join adds the separator and the piece at the end. */
  lemma {:induction false} JoinSnoc(ws: seq<string>, x: string, sep: string)
    ensures Join(ws + [x], sep) == if ws == [] then x else Join(ws, sep) + sep + x
    decreases |ws|
  {
    if ws != [] {
      assert (ws + [x])[0] == ws[0];
      if |ws| > 1 {
        assert (ws + [x])[1..] == ws[1..] + [x];
        JoinSnoc(ws[1..], x, sep);
      } else {
        assert (ws + [x])[1..] == [x];
      }
    }
  }

  /** Dropping a leading white-space character does not change whether a string has content. */
  lemma HasContentTail(x: string)
    requires x != [] && IsWhite(x[0])
    ensures HasContent(x) == HasContent(x[1..])
  {
    if HasContent(x) {
      var i :| 0 <= i < |x| && !IsWhite(x[i]);
      assert x[1..][i - 1] == x[i];
    }
    if HasContent(x[1..]) {
      var i :| 0 <= i < |x[1..]| && !IsWhite(x[1..][i]);
      assert x[i + 1] == x[1..][i];
    }
  }

  /** `TrimStart` of a concatenation: the second part is kept whole once the first has content. */
  lemma {:induction false} TrimStartAppend(x: string, y: string)
    ensures TrimStart(x + y) == if HasContent(x) then TrimStart(x) + y else TrimStart(y)
    decreases |x|
  {
    if x == [] {
      assert x + y == y;
      assert !HasContent(x);
    } else if IsWhite(x[0]) {
      assert (x + y)[0] == x[0];
      assert (x + y)[1..] == x[1..] + y;
      assert TrimStart(x + y) == TrimStart(x[1..] + y);
      assert TrimStart(x) == TrimStart(x[1..]);
      TrimStartAppend(x[1..], y);
      HasContentTail(x);
    } else {
      assert (x + y)[0] == x[0];
      assert TrimStart(x + y) == x + y;
      assert HasContent(x) by { assert !IsWhite(x[0]); }
    }
  }

  /** A string without content trims to nothing from the front. */
  lemma TrimStartBlank(x: string)
    requires !HasContent(x)
    ensures TrimStart(x) == ""
  {
  }

  /** A trailing space is the first thing `TrimEnd` drops. */
  lemma TrimEndSpace(t: string)
    ensures TrimEnd(t + " ") == TrimEnd(t)
  {
    var u := t + " ";
    assert |u| > 0 && u[|u| - 1] == ' ' && IsWhite(' ');
    assert u[..|u| - 1] == t;
  }

  /** One trailing space makes no difference once the string is trimmed. */
  lemma TrimTrailingSpace(x: string)
    ensures Trim(x + " ") == Trim(x)
  {
    TrimStartAppend(x, " ");
    if HasContent(x) {
      assert TrimStart(x + " ") == TrimStart(x) + " ";
      TrimEndSpace(TrimStart(x));
    } else {
      assert TrimStart(x + " ") == TrimStart(" ");
      TrimStartBlank(x);
      TrimStartBlank(" ");
    }
  }

  /** A string without white space is a single word. */
  lemma {:induction false} SplitWhiteSingle(a: string)
    requires NoWhite(a)
    ensures SplitWhite(a) == [a]
    decreases |a|
  {
    if a != [] {
      assert NoWhite(a[1..]) by {
        forall i | 0 <= i < |a| - 1 ensures !IsWhite(a[1..][i]) {
          assert a[1..][i] == a[i + 1];
        }
      }
      SplitWhiteSingle(a[1..]);
      assert a == [a[0]] + a[1..];
    }
  }

  /** `String.Split()` cuts at the first white-space character and goes on with the rest. */
  lemma {:induction false} SplitWhiteCut(a: string, c: char, b: string)
    requires NoWhite(a) && IsWhite(c)
    ensures SplitWhite(a + [c] + b) == [a] + SplitWhite(b)
    decreases |a|
  {
    var s := a + [c] + b;
    if a == [] {
      assert s[1..] == b;
    } else {
      assert s[0] == a[0] && s[1..] == a[1..] + [c] + b;
      assert NoWhite(a[1..]) by {
        forall i | 0 <= i < |a| - 1 ensures !IsWhite(a[1..][i]) {
          assert a[1..][i] == a[i + 1];
        }
      }
      SplitWhiteCut(a[1..], c, b);
      assert a == [a[0]] + a[1..];
    }
  }

  /** A string that starts and ends with a non-white character is its own trim. */
  lemma TrimUnchanged(s: string)
    requires s != [] && !IsWhite(s[0]) && !IsWhite(s[|s| - 1])
    ensures Trim(s) == s
  {
    assert TrimStart(s) == s;
    assert TrimEnd(s) == s;
  }
}
