/**
 * The handful of Python `str` operations the quiz relies on, over `seq<char>`:
 * `isspace` (the character set that `strip()` and `split()` use), `lower`,
 * `strip`, `split()` with no separator, and `' '.join`.
 */
module Text {

  /** The characters Python's `str.isspace()` accepts; `split()` and `strip()` cut on these. */
  predicate IsSpace(c: char) {
    var n := c as int;
    || (0x09 <= n <= 0x0D)
    || (0x1C <= n <= 0x20)
    || n == 0x85 || n == 0xA0 || n == 0x1680
    || (0x2000 <= n <= 0x200A)
    || n == 0x2028 || n == 0x2029 || n == 0x202F || n == 0x205F || n == 0x3000
  }

  /**
   * `str.lower()` on one character, for the capitals of Basic Latin, Latin-1 and the
   * basic Cyrillic block (the corpus is Russian); every other character is left as it is.
   */
  function Lower(c: char): char {
    var n := c as int;
    if 'A' as int <= n <= 'Z' as int then (n + 32) as char
    else if 0x410 <= n <= 0x42F then (n + 0x20) as char   // А..Я
    else if 0x400 <= n <= 0x40F then (n + 0x50) as char   // Ѐ..Џ, among them Ё
    else if 0xC0 <= n <= 0xDE && n != 0xD7 then (n + 0x20) as char   // À..Þ, but not ×
    else c
  }

  lemma LowerIdempotent(c: char)
    ensures Lower(Lower(c)) == Lower(c)
    ensures IsSpace(Lower(c)) == IsSpace(c)
  {
  }

  /** `s.lower()` */
  function LowerAll(s: string): (r: string)
    ensures |r| == |s|
    ensures forall i | 0 <= i < |s| :: r[i] == Lower(s[i])
  {
    seq(|s|, i requires 0 <= i < |s| => Lower(s[i]))
  }

  /** Every character of `s` satisfies `p`. */
  predicate All(s: string, p: char -> bool) {
    forall i | 0 <= i < |s| :: p(s[i])
  }

  /** Length of the leading whitespace run of `s`. */
  function LeadingSpaces(s: string): (k: nat)
    ensures k <= |s|
    ensures forall i | 0 <= i < k :: IsSpace(s[i])
    ensures k < |s| ==> !IsSpace(s[k])
  {
    if s != [] && IsSpace(s[0]) then 1 + LeadingSpaces(s[1..]) else 0
  }

  /** Length of `s` without its trailing whitespace run. */
  function TrailingStart(s: string): (k: nat)
    ensures k <= |s|
    ensures forall i | k <= i < |s| :: IsSpace(s[i])
    ensures k > 0 ==> !IsSpace(s[k - 1])
  {
    if s != [] && IsSpace(s[|s| - 1]) then TrailingStart(s[..|s| - 1]) else |s|
  }

  /** `s.lstrip()` */
  function TrimLeft(s: string): string {
    s[LeadingSpaces(s)..]
  }

  /** `s.rstrip()` */
  function TrimRight(s: string): string {
    s[..TrailingStart(s)]
  }

  /** `s.strip()` */
  function Trim(s: string): (r: string)
    ensures |r| <= |s|
    ensures Trimmed(r)
  {
    TrimRight(TrimLeft(s))
  }

  /** Neither end of `s` is whitespace. */
  predicate Trimmed(s: string) {
    s != [] ==> !IsSpace(s[0]) && !IsSpace(s[|s| - 1])
  }

  /** Where `s.strip()` ends in `s`. */
  function TrimEnd(s: string): nat {
    LeadingSpaces(s) + TrailingStart(TrimLeft(s))
  }

  /**
   * `s.strip()` is the infix of `s` from LeadingSpaces(s) to TrimEnd(s): its
   * ends are not whitespace and every character outside it is.
   */
  lemma TrimIsInfix(s: string)
    ensures LeadingSpaces(s) <= TrimEnd(s) <= |s|
    ensures |Trim(s)| == TrimEnd(s) - LeadingSpaces(s)
    ensures forall i | 0 <= i < |Trim(s)| :: Trim(s)[i] == s[LeadingSpaces(s) + i]
    ensures Trimmed(Trim(s))
    ensures forall i | 0 <= i < LeadingSpaces(s) :: IsSpace(s[i])
    ensures forall i | TrimEnd(s) <= i < |s| :: IsSpace(s[i])
  {
    var a := LeadingSpaces(s);
    var t := s[a..];
    var b := TrailingStart(t);
    var r := t[..b];
    assert Trim(s) == r == s[a..a + b];
    forall i | a + b <= i < |s| ensures IsSpace(s[i]) {
      assert s[i] == t[i - a];
    }
  }

  /** Trimming a string whose ends are not whitespace gives it back. */
  lemma TrimOfTrimmed(s: string)
    requires Trimmed(s)
    ensures Trim(s) == s
  {
  }

  /** `strip()` removes exactly the whitespace padding around a trimmed string. */
  lemma TrimOfPadded(pre: string, t: string, post: string)
    requires All(pre, IsSpace) && All(post, IsSpace) && Trimmed(t)
    ensures Trim(pre + t + post) == t
  {
    var s := pre + t + post;
    forall i | 0 <= i < |pre| ensures IsSpace(s[i]) {
      assert s[i] == pre[i];
    }
    if t == [] {
      forall i | 0 <= i < |s| ensures IsSpace(s[i]) {
        assert i >= |pre| ==> s[i] == post[i - |pre|];
      }
      assert LeadingSpaces(s) == |s|;
    } else {
      assert s[|pre|] == t[0];
      assert LeadingSpaces(s) == |pre|;
      var u := TrimLeft(s);
      assert u == t + post;
      forall i | |t| <= i < |u| ensures IsSpace(u[i]) {
        assert u[i] == post[i - |t|];
      }
      assert u[|t| - 1] == t[|t| - 1];
      assert TrailingStart(u) == |t|;
      assert Trim(s) == u[..|t|];
    }
  }

  /** A token of `split()`: non-empty, with no whitespace in it. */
  predicate IsWord(w: string) {
    w != [] && forall i | 0 <= i < |w| :: !IsSpace(w[i])
  }

  /** Index of the first whitespace character of `s`, or |s| if there is none. */
  function WordEnd(s: string): (k: nat)
    ensures k <= |s|
    ensures forall i | 0 <= i < k :: !IsSpace(s[i])
    ensures k < |s| ==> IsSpace(s[k])
  {
    if s == [] || IsSpace(s[0]) then 0 else 1 + WordEnd(s[1..])
  }

  /** `s.split()` with no separator: the maximal whitespace-free runs, in order. */
  function Words(s: string): (ws: seq<string>)
    ensures forall i | 0 <= i < |ws| :: IsWord(ws[i])
    decreases |s|
  {
    var t := TrimLeft(s);
    if t == [] then []
    else
      var k := WordEnd(t);
      [t[..k]] + Words(t[k..])
  }

  /** `' '.join(ws)` */
  function Join(ws: seq<string>): string {
    if |ws| == 0 then ""
    else if |ws| == 1 then ws[0]
    else ws[0] + " " + Join(ws[1..])
  }

  /**
   * The shape `' '.join(s.split())` produces: no whitespace at either end, no
   * whitespace other than the plain space, and never two spaces in a row.
   */
  predicate NormalForm(s: string) {
    && Trimmed(s)
    && (forall i | 0 <= i < |s| && IsSpace(s[i]) :: s[i] == ' ')
    && (forall i | 0 <= i < |s| - 1 :: !DoubleSpaceAt(s, i))
  }

  /** Positions i and i + 1 of `s` both hold a space. */
  predicate DoubleSpaceAt(s: string, i: nat)
    requires i + 1 < |s|
  {
    s[i] == ' ' && s[i + 1] == ' '
  }

  /** `' '.join(s.split())`: collapses every whitespace run to one space and trims. */
  function Collapse(s: string): (r: string)
    ensures NormalForm(r)
  {
    var ws := Words(s);
    JoinNormalForm(ws);
    Join(ws)
  }

  /** Collapsing keeps the words and their order. */
  lemma CollapseKeepsWords(s: string)
    ensures Words(Collapse(s)) == Words(s)
  {
    WordsOfJoin(Words(s));
  }

  lemma {:induction false} JoinNormalForm(ws: seq<string>)
    requires forall i | 0 <= i < |ws| :: IsWord(ws[i])
    ensures NormalForm(Join(ws))
    ensures |ws| > 0 ==> Join(ws) != []
    decreases |ws|
  {
    if |ws| >= 2 {
      var w, rest := ws[0], Join(ws[1..]);
      JoinNormalForm(ws[1..]);
      assert ws[1] in ws;
      var j := Join(ws);
      assert j == w + " " + rest;
      assert IsWord(w);
      assert rest != [] && !IsSpace(rest[0]);
      forall i | 0 <= i < |j| && IsSpace(j[i]) ensures j[i] == ' ' {
        if i > |w| { assert j[i] == rest[i - |w| - 1]; }
      }
      forall i | 0 <= i < |j| - 1 ensures !DoubleSpaceAt(j, i) {
        if i > |w| {
          assert j[i] == rest[i - |w| - 1] && j[i + 1] == rest[i - |w|];
          assert !DoubleSpaceAt(rest, i - |w| - 1);
        } else if i == |w| {
          assert j[i + 1] == rest[0];
        } else {
          assert j[i] == w[i] && !IsSpace(w[i]);
        }
      }
      assert j[|j| - 1] == rest[|rest| - 1];
    } else if |ws| == 1 {
      assert ws[0] in ws;
    }
  }

  /** Leading whitespace is irrelevant to `split()`. */
  lemma WordsSkipLeadingSpace(s: string)
    ensures Words(TrimLeft(s)) == Words(s)
  {
    var t := TrimLeft(s);
    assert TrimLeft(t) == t;
  }

  /** Whitespace appended to `s` does not move the start of its first word. */
  lemma TrimLeftOfTrailingSpace(s: string, sp: string)
    requires All(sp, IsSpace)
    ensures TrimLeft(s) == [] ==> TrimLeft(s + sp) == []
    ensures TrimLeft(s) != [] ==> TrimLeft(s + sp) == TrimLeft(s) + sp
  {
    var j := s + sp;
    var a := LeadingSpaces(s);
    if a == |s| {
      forall i | 0 <= i < |j| ensures IsSpace(j[i]) {
        if i < |s| { assert j[i] == s[i]; } else { assert j[i] == sp[i - |s|]; }
      }
      assert LeadingSpaces(j) == |j|;
    } else {
      assert forall i | 0 <= i <= a :: j[i] == s[i];
      assert LeadingSpaces(j) == a;
      assert j[a..] == s[a..] + sp;
    }
  }

  /** Whitespace appended to `t` does not move the end of its first word. */
  lemma WordEndOfTrailingSpace(t: string, sp: string)
    requires All(sp, IsSpace)
    ensures WordEnd(t + sp) == WordEnd(t)
  {
    var u := t + sp;
    var k := WordEnd(t);
    assert forall i | 0 <= i < |t| :: u[i] == t[i];
    assert forall i | |t| <= i < |u| :: u[i] == sp[i - |t|];
    assert forall i | 0 <= i < k :: !IsSpace(u[i]);
    assert k < |u| ==> IsSpace(u[k]);
  }

  /** Trailing whitespace is irrelevant to `split()` as well. */
  lemma {:induction false} WordsOfTrailingSpace(s: string, sp: string)
    requires All(sp, IsSpace)
    ensures Words(s + sp) == Words(s)
    decreases |s|
  {
    var t := TrimLeft(s);
    TrimLeftOfTrailingSpace(s, sp);
    if t != [] {
      var u := t + sp;
      var k := WordEnd(t);
      WordEndOfTrailingSpace(t, sp);
      assert t[0] == s[LeadingSpaces(s)];
      assert u[..k] == t[..k];
      assert u[k..] == t[k..] + sp;
      WordsOfTrailingSpace(t[k..], sp);
      assert Words(s + sp) == [t[..k]] + Words(t[k..] + sp);
    }
  }

  /** `split()` ignores what `strip()` removes. */
  lemma WordsOfTrim(s: string)
    ensures Words(Trim(s)) == Words(s)
  {
    var t := TrimLeft(s);
    var e := TrailingStart(t);
    assert t == t[..e] + t[e..];
    assert All(t[e..], IsSpace);
    WordsOfTrailingSpace(t[..e], t[e..]);
    WordsSkipLeadingSpace(s);
  }

  /** `split()` drops one leading space. */
  lemma WordsOfSpaceThen(t: string)
    ensures Words(" " + t) == Words(t)
  {
    assert (" " + t)[1..] == t;
    assert TrimLeft(" " + t) == TrimLeft(t);
    WordsSkipLeadingSpace(t);
    WordsSkipLeadingSpace(" " + t);
  }

  /** A word followed by nothing or by whitespace is the first token `split()` returns. */
  lemma WordsOfWordThen(w: string, rest: string)
    requires IsWord(w)
    requires rest == [] || IsSpace(rest[0])
    ensures Words(w + rest) == [w] + Words(rest)
  {
    var j := w + rest;
    assert j[0] == w[0];
    assert TrimLeft(j) == j;
    var k := WordEnd(j);
    assert forall i | 0 <= i < |w| :: j[i] == w[i];
    assert |w| < |j| ==> j[|w|] == rest[0];
    assert j[..k] == w && j[k..] == rest;
  }

  /** `split()` undoes `' '.join` on a list of words. */
  lemma {:induction false} WordsOfJoin(ws: seq<string>)
    requires forall i | 0 <= i < |ws| :: IsWord(ws[i])
    ensures Words(Join(ws)) == ws
    decreases |ws|
  {
    if |ws| == 0 {
      assert TrimLeft("") == "";
    } else {
      assert ws[0] in ws;
      if |ws| == 1 {
        WordsOfWordThen(ws[0], "");
        assert ws[0] + "" == ws[0];
        assert TrimLeft("") == "";
      } else {
        var tail := Join(ws[1..]);
        WordsOfJoin(ws[1..]);
        assert ws == [ws[0]] + ws[1..];
        JoinCons(ws[0], ws[1..]);
        WordsOfWordThen(ws[0], " " + tail);
        WordsOfSpaceThen(tail);
        assert ws == [ws[0]] + ws[1..];
      }
    }
  }

  /** Every word `split()` returns is made of characters of `s`. */
  lemma {:induction false} WordsKeep(s: string, p: char -> bool)
    requires All(s, p)
    ensures forall w | w in Words(s) :: All(w, p)
    decreases |s|
  {
    var t := TrimLeft(s);
    if t != [] {
      var k := WordEnd(t);
      WordsKeep(t[k..], p);
    }
  }

  /** `' '.join` adds only spaces to its words. */
  lemma {:induction false} JoinKeeps(ws: seq<string>, p: char -> bool)
    requires forall w | w in ws :: All(w, p)
    requires p(' ')
    ensures All(Join(ws), p)
    decreases |ws|
  {
    if |ws| == 1 {
      assert ws[0] in ws;
    } else if |ws| >= 2 {
      assert ws[0] in ws;
      JoinKeeps(ws[1..], p);
      var j, rest := Join(ws), Join(ws[1..]);
      assert j == ws[0] + " " + rest;
      forall i | 0 <= i < |j| ensures p(j[i]) {
        if i > |ws[0]| { assert j[i] == rest[i - |ws[0]| - 1]; }
      }
    }
  }

  /** `' '.join(s.split())` produces only characters of `s` and spaces. */
  lemma CollapseKeeps(s: string, p: char -> bool)
    requires All(s, p) && p(' ')
    ensures All(Collapse(s), p)
  {
    WordsKeep(s, p);
    JoinKeeps(Words(s), p);
  }

  /** A normal-form string with a space in it is a word, one space, and a normal-form rest. */
  lemma NormalFormSplit(s: string) returns (w: string, tail: string)
    requires NormalForm(s)
    requires WordEnd(s) < |s|
    ensures IsWord(w) && NormalForm(tail) && tail != []
    ensures s == w + (" " + tail)
  {
    var k := WordEnd(s);
    assert s[k] == ' ';
    assert !DoubleSpaceAt(s, k);
    w, tail := s[..k], s[k + 1..];
    assert tail[0] == s[k + 1];
    forall i | 0 <= i < |tail| - 1 ensures !DoubleSpaceAt(tail, i) {
      assert !DoubleSpaceAt(s, k + 1 + i);
    }
    assert tail[|tail| - 1] == s[|s| - 1];
  }

  /** Joining a word in front of a non-empty list puts one space between. */
  lemma JoinCons(w: string, ws: seq<string>)
    requires ws != []
    ensures Join([w] + ws) == w + (" " + Join(ws))
  {
    assert ([w] + ws)[1..] == ws;
    assert w + " " + Join(ws) == w + (" " + Join(ws));
  }

  /** A string already in normal form is what collapsing the words it splits into gives back. */
  lemma {:induction false} JoinOfWords(s: string)
    requires NormalForm(s)
    ensures Join(Words(s)) == s
    decreases |s|
  {
    if s == [] {
      assert TrimLeft(s) == [];
    } else if WordEnd(s) == |s| {
      WordsOfWordThen(s, []);
      assert s + [] == s;
      assert TrimLeft([]) == [];
      assert Words(s) == [s];
    } else {
      var w, tail := NormalFormSplit(s);
      JoinOfWords(tail);
      WordsOfWordThen(w, " " + tail);
      WordsOfSpaceThen(tail);
      var ws := Words(tail);
      assert TrimLeft(tail) == tail;
      assert ws != [];
      assert Words(s) == [w] + ws;
      JoinCons(w, ws);
    }
  }

  /** `' '.join(s.split())` is idempotent. */
  lemma CollapseIdempotent(s: string)
    ensures Collapse(Collapse(s)) == Collapse(s)
  {
    JoinOfWords(Collapse(s));
  }
}
