/**
 * The pieces of Python 2 string handling the installer relies on:
 * `str.isspace` on bytes, `string.split(s)` (splitting on runs of
 * whitespace), `file.readlines()` and the slice `s[:-1]`.
 */
module Text {

  /** Python 2 `isspace` on a byte: space, tab, line feed, vertical tab,
      form feed, carriage return. */
  predicate IsSpace(c: char) {
    c == ' ' || '\t' <= c <= '\r'
  }

  predicate NoSpace(s: string) {
    forall i :: 0 <= i < |s| ==> !IsSpace(s[i])
  }

  predicate AllSpace(s: string) {
    forall i :: 0 <= i < |s| ==> IsSpace(s[i])
  }

  /** A field as `split()` returns it: non-empty, no whitespace. */
  predicate IsWord(w: string) {
    |w| > 0 && NoSpace(w)
  }

  predicate NoChar(s: string, c: char) {
    forall i :: 0 <= i < |s| ==> s[i] != c
  }

  predicate StartsWith(s: string, prefix: string) {
    |prefix| <= |s| && s[..|prefix|] == prefix
  }

  predicate EndsWith(s: string, suffix: string) {
    |suffix| <= |s| && s[|s| - |suffix|..] == suffix
  }

  /** `s[:-1]`: the last character is dropped, whatever it is. */
  function DropLast(s: string): (r: string)
    ensures s != [] ==> s == r + [s[|s| - 1]]
    ensures s == [] ==> r == []
  {
    if s == [] then [] else s[..|s| - 1]
  }

  /** Length of the run of non-space characters at the start of `s`. */
  function WordEnd(s: string): (n: nat)
    ensures n <= |s|
    ensures NoSpace(s[..n])
    ensures n < |s| ==> IsSpace(s[n])
  {
    if s == [] || IsSpace(s[0]) then 0 else 1 + WordEnd(s[1..])
  }

  /** `string.split(s)` with no separator: the maximal runs of
      non-whitespace characters, in order. */
  function Fields(s: string): (r: seq<string>)
    ensures forall i :: 0 <= i < |r| ==> IsWord(r[i])
    decreases |s|
  {
    if s == [] then []
    else if IsSpace(s[0]) then Fields(s[1..])
    else
      var n := WordEnd(s);
      [s[..n]] + Fields(s[n..])
  }

  /** Words separated by single spaces (the inverse of `Fields`). */
  function Unwords(ws: seq<string>): string
  {
    if |ws| == 0 then []
    else if |ws| == 1 then ws[0]
    else ws[0] + " " + Unwords(ws[1..])
  }

  /** Length of the first line of `s`, its line feed included when
      there is one. */
  function LineLength(s: string): (n: nat)
    requires s != []
    ensures 0 < n <= |s|
    ensures NoChar(s[..n - 1], '\n')
    ensures n < |s| ==> s[n - 1] == '\n'
  {
    if s[0] == '\n' || |s| == 1 then 1 else 1 + LineLength(s[1..])
  }

  /** `readlines()`: every line keeps its line feed; a last line without
      one is returned as it is. */
  function Lines(s: string): (r: seq<string>)
    ensures forall i :: 0 <= i < |r| ==> r[i] != []
    decreases |s|
  {
    if s == [] then []
    else
      var n := LineLength(s);
      [s[..n]] + Lines(s[n..])
  }

  /** A complete line: it ends with its only line feed. */
  predicate Terminated(l: string) {
    |l| > 0 && l[|l| - 1] == '\n' && NoChar(l[..|l| - 1], '\n')
  }

  function Concat(ls: seq<string>): string
  {
    if ls == [] then [] else ls[0] + Concat(ls[1..])
  }

  lemma {:induction false} ConcatSnoc(ls: seq<string>, l: string)
    ensures Concat(ls + [l]) == Concat(ls) + l
    decreases |ls|
  {
    if ls == [] {
      assert ls + [l] == [l];
    } else {
      assert (ls + [l])[1..] == ls[1..] + [l];
      ConcatSnoc(ls[1..], l);
    }
  }

  /** Leading whitespace never changes the fields. */
  lemma {:induction false} FieldsSkipSpace(sp: string, s: string)
    requires AllSpace(sp)
    ensures Fields(sp + s) == Fields(s)
    decreases |sp|
  {
    if sp == [] {
      assert sp + s == s;
    } else {
      assert (sp + s)[0] == sp[0];
      assert (sp + s)[1..] == sp[1..] + s;
      FieldsSkipSpace(sp[1..], s);
    }
  }

  lemma {:induction false} WordEndOfWord(w: string, rest: string)
    requires NoSpace(w)
    requires rest == [] || IsSpace(rest[0])
    ensures WordEnd(w + rest) == |w|
    decreases |w|
  {
    if w == [] {
      assert w + rest == rest;
    } else {
      assert (w + rest)[0] == w[0];
      assert (w + rest)[1..] == w[1..] + rest;
      WordEndOfWord(w[1..], rest);
    }
  }

  /** A word followed by whitespace (or nothing) is the first field. */
  lemma FieldsWordFirst(w: string, rest: string)
    requires IsWord(w)
    requires rest == [] || IsSpace(rest[0])
    ensures Fields(w + rest) == [w] + Fields(rest)
  {
    WordEndOfWord(w, rest);
    var s := w + rest;
    assert s[0] == w[0];
    assert s[..|w|] == w;
    assert s[|w|..] == rest;
  }

  /** A single word splits into itself. */
  lemma FieldsOfWord(w: string)
    requires IsWord(w)
    ensures Fields(w) == [w]
  {
    FieldsWordFirst(w, []);
    assert w + [] == w;
  }

  /** Whitespace alone splits into no fields. */
  lemma FieldsOfSpace(sp: string)
    requires AllSpace(sp)
    ensures Fields(sp) == []
  {
    FieldsSkipSpace(sp, []);
    assert sp + [] == sp;
  }

  lemma {:induction false} WordEndExtend(x: string, y: string)
    requires WordEnd(x) < |x|
    ensures WordEnd(x + y) == WordEnd(x)
    decreases |x|
  {
    assert (x + y)[0] == x[0];
    if !IsSpace(x[0]) {
      assert (x + y)[1..] == x[1..] + y;
      WordEndExtend(x[1..], y);
    }
  }

  /** Two texts that meet at whitespace split into the fields of each. */
  lemma {:induction false} FieldsAppend(x: string, y: string)
    requires x == [] || y == [] || IsSpace(x[|x| - 1]) || IsSpace(y[0])
    ensures Fields(x + y) == Fields(x) + Fields(y)
    decreases |x|
  {
    if x == [] {
      assert x + y == y;
    } else if y == [] {
      assert x + y == x;
    } else if IsSpace(x[0]) {
      assert (x + y)[0] == x[0];
      assert (x + y)[1..] == x[1..] + y;
      FieldsAppend(x[1..], y);
    } else {
      var n := WordEnd(x);
      if n < |x| {
        WordEndExtend(x, y);
        assert (x + y)[0] == x[0];
        assert (x + y)[..n] == x[..n];
        assert (x + y)[n..] == x[n..] + y;
        FieldsAppend(x[n..], y);
      } else {
        assert x[..n] == x;
        WordEndOfWord(x, y);
        assert (x + y)[0] == x[0];
        assert (x + y)[..n] == x;
        assert (x + y)[n..] == y;
        assert x[n..] == [];
      }
    }
  }

  /** Splitting undoes joining with single spaces. */
  lemma {:induction false} FieldsOfUnwords(ws: seq<string>)
    requires forall i :: 0 <= i < |ws| ==> IsWord(ws[i])
    ensures Fields(Unwords(ws)) == ws
    decreases |ws|
  {
    if |ws| == 1 {
      FieldsWordFirst(ws[0], []);
      assert ws[0] + [] == ws[0];
      assert Fields([]) == [];
    } else if |ws| > 1 {
      var tail := Unwords(ws[1..]);
      assert ws[0] + " " + tail == ws[0] + (" " + tail);
      FieldsWordFirst(ws[0], " " + tail);
      FieldsSkipSpace(" ", tail);
      FieldsOfUnwords(ws[1..]);
      assert [ws[0]] + ws[1..] == ws;
    }
  }

  /** Dropping the last character of a joined line shortens its last word. */
  lemma {:induction false} DropLastUnwords(ws: seq<string>)
    requires |ws| >= 1 && |ws[|ws| - 1]| >= 1
    ensures DropLast(Unwords(ws)) == Unwords(ws[..|ws| - 1] + [DropLast(ws[|ws| - 1])])
    decreases |ws|
  {
    var last := ws[|ws| - 1];
    var shorter := ws[..|ws| - 1] + [DropLast(last)];
    if |ws| == 1 {
      assert shorter == [DropLast(last)];
    } else {
      var t := Unwords(ws[1..]);
      DropLastUnwords(ws[1..]);
      assert shorter[1..] == ws[1..][..|ws| - 2] + [DropLast(last)];
      assert t != [] by {
        if |ws| == 2 {
          assert t == last;
        } else {
          assert t == ws[1] + " " + Unwords(ws[2..]);
        }
      }
      assert ws[0] + " " + t == (ws[0] + " ") + t;
      assert DropLast((ws[0] + " ") + t) == (ws[0] + " ") + DropLast(t);
    }
  }

  /** Words joined by spaces contain no line feed. */
  lemma {:induction false} UnwordsNoNewline(ws: seq<string>)
    requires forall i :: 0 <= i < |ws| ==> IsWord(ws[i])
    ensures NoChar(Unwords(ws), '\n')
    decreases |ws|
  {
    if |ws| > 1 {
      UnwordsNoNewline(ws[1..]);
      var u := Unwords(ws);
      forall i | 0 <= i < |u| ensures u[i] != '\n' {
        if i < |ws[0]| {
          assert u[i] == ws[0][i];
        } else if i > |ws[0]| {
          assert u[i] == Unwords(ws[1..])[i - |ws[0]| - 1];
        }
      }
    }
  }

  lemma {:induction false} LineLengthOfTerminated(l: string, rest: string)
    requires Terminated(l)
    ensures LineLength(l + rest) == |l|
    decreases |l|
  {
    var s := l + rest;
    assert s[0] == l[0];
    if |l| > 1 {
      assert l[0] == l[..|l| - 1][0];
      assert s[1..] == l[1..] + rest;
      assert l[1..][..|l[1..]| - 1] == l[..|l| - 1][1..];
      LineLengthOfTerminated(l[1..], rest);
    }
  }

  /** `readlines()` gives back the complete lines a text was made of. */
  lemma {:induction false} LinesOfConcat(ls: seq<string>)
    requires forall i :: 0 <= i < |ls| ==> Terminated(ls[i])
    ensures Lines(Concat(ls)) == ls
    decreases |ls|
  {
    if ls != [] {
      var s := Concat(ls);
      LineLengthOfTerminated(ls[0], Concat(ls[1..]));
      assert s[..|ls[0]|] == ls[0];
      assert s[|ls[0]|..] == Concat(ls[1..]);
      LinesOfConcat(ls[1..]);
      assert [ls[0]] + ls[1..] == ls;
    }
  }

  /** Text without a line feed is one line. */
  lemma {:induction false} LineLengthOfUnterminated(u: string)
    requires u != [] && NoChar(u, '\n')
    ensures LineLength(u) == |u|
    decreases |u|
  {
    if |u| > 1 {
      LineLengthOfUnterminated(u[1..]);
    }
  }

  /** A complete line at the start of a text is its first line. */
  lemma LinesFirstLine(l: string, rest: string)
    requires Terminated(l)
    ensures Lines(l + rest) == [l] + Lines(rest)
  {
    LineLengthOfTerminated(l, rest);
    var s := l + rest;
    assert s[..|l|] == l;
    assert s[|l|..] == rest;
  }

  /** `readlines()` on complete lines followed by a tail without a line
      feed gives the complete lines, then the tail. */
  lemma {:induction false} LinesUnterminated(ls: seq<string>, u: string)
    requires forall i :: 0 <= i < |ls| ==> Terminated(ls[i])
    requires u != [] && NoChar(u, '\n')
    ensures Lines(Concat(ls) + u) == ls + [u]
    decreases |ls|
  {
    if ls == [] {
      assert Concat(ls) + u == u;
      LineLengthOfUnterminated(u);
      assert u[..|u|] == u && u[|u|..] == [];
    } else {
      assert Concat(ls) + u == ls[0] + (Concat(ls[1..]) + u);
      LinesFirstLine(ls[0], Concat(ls[1..]) + u);
      LinesUnterminated(ls[1..], u);
      assert [ls[0]] + (ls[1..] + [u]) == ls + [u];
    }
  }

  lemma {:induction false} UnwordsSnoc(ws: seq<string>, w: string)
    requires |ws| >= 1
    ensures Unwords(ws + [w]) == Unwords(ws) + " " + w
    decreases |ws|
  {
    if |ws| > 1 {
      assert (ws + [w])[1..] == ws[1..] + [w];
      UnwordsSnoc(ws[1..], w);
    }
  }

  /** When the last of several words is one character long, `s[:-1]` on
      the joined text leaves a trailing space, and splitting loses that
      word. */
  lemma FieldsDropOneCharWord(ws: seq<string>)
    requires |ws| >= 2 && |ws[|ws| - 1]| == 1
    requires forall i :: 0 <= i < |ws| ==> IsWord(ws[i])
    ensures Fields(DropLast(Unwords(ws))) == ws[..|ws| - 1]
  {
    var init := ws[..|ws| - 1];
    var w := ws[|ws| - 1];
    assert ws == init + [w];
    UnwordsSnoc(init, w);
    assert DropLast(Unwords(ws)) == Unwords(init) + " ";
    FieldsAppend(Unwords(init), " ");
    FieldsOfSpace(" ");
    FieldsOfUnwords(init);
  }
}
