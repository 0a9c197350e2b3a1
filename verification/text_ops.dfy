/** The Python `str` operations the scripts rely on, over `string` (a
    sequence of Unicode scalar values).  Case mapping and `isdigit` cover
    ASCII only; whitespace is Python's full `str.isspace` set. */
module TextOps {

  // ---------------------------------------------------------------------------
  // Case mapping
  // ---------------------------------------------------------------------------

  function LowerChar(c: char): char {
    if 'A' <= c <= 'Z' then (c as int + 32) as char else c
  }

  function UpperChar(c: char): char {
    if 'a' <= c <= 'z' then (c as int - 32) as char else c
  }

  /** `s.lower()` */
  function Lower(s: string): (r: string)
    ensures |r| == |s|
    ensures forall i :: 0 <= i < |s| ==> r[i] == LowerChar(s[i])
  {
    seq(|s|, i requires 0 <= i < |s| => LowerChar(s[i]))
  }

  /** `s.upper()` */
  function Upper(s: string): (r: string)
    ensures |r| == |s|
    ensures forall i :: 0 <= i < |s| ==> r[i] == UpperChar(s[i])
  {
    seq(|s|, i requires 0 <= i < |s| => UpperChar(s[i]))
  }

  /** Lower-casing twice is lower-casing once, so a key that is already
      lower-cased compares the same after another `.lower()`. */
  lemma LowerIdempotent(s: string)
    ensures Lower(Lower(s)) == Lower(s)
  {
  }

  // ---------------------------------------------------------------------------
  // Substring search: Python's `needle in hay`
  // ---------------------------------------------------------------------------

  /** `needle` occurs in `hay` starting at index `i`. */
  predicate OccursAt(needle: string, hay: string, i: int) {
    0 <= i && i + |needle| <= |hay| && hay[i..i + |needle|] == needle
  }

  ghost predicate IsSubstring(needle: string, hay: string) {
    exists i :: OccursAt(needle, hay, i)
  }

  /** The left-to-right search behind `needle in hay`; it agrees with the
      existential definition on every input, including the empty needle. */
  function Contains(hay: string, needle: string): (b: bool)
    ensures b <==> IsSubstring(needle, hay)
    decreases |hay|
  {
    if |needle| <= |hay| && hay[..|needle|] == needle then
      assert OccursAt(needle, hay, 0);
      true
    else if hay == [] then
      false
    else
      SubstringStep(needle, hay);
      Contains(hay[1..], needle)
  }

  /** When the needle is not at the front, it occurs in `hay` exactly when it
      occurs in the tail. */
  lemma SubstringStep(needle: string, hay: string)
    requires hay != []
    requires !(|needle| <= |hay| && hay[..|needle|] == needle)
    ensures IsSubstring(needle, hay) <==> IsSubstring(needle, hay[1..])
  {
    var tail := hay[1..];
    if IsSubstring(needle, hay) {
      var i :| OccursAt(needle, hay, i);
      assert tail[i - 1..i - 1 + |needle|] == hay[i..i + |needle|];
      assert OccursAt(needle, tail, i - 1);
    }
    if IsSubstring(needle, tail) {
      var j :| OccursAt(needle, tail, j);
      assert hay[j + 1..j + 1 + |needle|] == tail[j..j + |needle|];
      assert OccursAt(needle, hay, j + 1);
    }
  }

  /** A needle holding a character the haystack lacks cannot occur in it. */
  lemma AbsentCharNotSubstring(needle: string, hay: string, c: char)
    requires c in needle && c !in hay
    ensures !Contains(hay, needle)
  {
    var k :| 0 <= k < |needle| && needle[k] == c;
    forall i | 0 <= i && i + |needle| <= |hay|
      ensures !OccursAt(needle, hay, i)
    {
      assert hay[i..i + |needle|][k] == hay[i + k] != c;
    }
  }

  /** A literal occurrence is found. */
  lemma ContainsAt(hay: string, needle: string, i: nat)
    requires OccursAt(needle, hay, i)
    ensures Contains(hay, needle)
  {
  }

  // ---------------------------------------------------------------------------
  // Digits: Python's `str.isdigit()`
  // ---------------------------------------------------------------------------

  predicate IsDigitChar(c: char) {
    '0' <= c <= '9'
  }

  /** `s.isdigit()`: false on the empty string. */
  predicate IsDigits(s: string) {
    |s| > 0 && forall i :: 0 <= i < |s| ==> IsDigitChar(s[i])
  }

  // ---------------------------------------------------------------------------
  // Splitting on one separator and joining: `s.split(sep)`, `sep.join(parts)`
  // ---------------------------------------------------------------------------

  /** `sep.join(parts)` */
  function Join(parts: seq<string>, sep: string): string {
    if parts == [] then []
    else if |parts| == 1 then parts[0]
    else parts[0] + sep + Join(parts[1..], sep)
  }

  /** `s.split(sep)` for a one-character separator: never empty, no part
      holds the separator, and joining the parts back gives `s`. */
  function Split(s: string, sep: char): (parts: seq<string>)
    ensures |parts| > 0
    ensures forall i :: 0 <= i < |parts| ==> sep !in parts[i]
    ensures Join(parts, [sep]) == s
    decreases |s|
  {
    if s == [] then
      [[]]
    else
      var rest := Split(s[1..], sep);
      if s[0] == sep then
        assert Join([[]] + rest, [sep]) == [] + [sep] + Join(rest, [sep]);
        [[]] + rest
      else
        var parts := [[s[0]] + rest[0]] + rest[1..];
        assert parts[1..] == rest[1..];
        assert Join(parts, [sep]) == [s[0]] + Join(rest, [sep]);
        parts
  }

  /** A separator-free prefix extends the first part of the split. */
  lemma {:induction false} SplitPrefix(w: string, t: string, sep: char)
    requires sep !in w
    ensures Split(w + t, sep) == [w + Split(t, sep)[0]] + Split(t, sep)[1..]
    decreases |w|
  {
    if w == [] {
      var st := Split(t, sep);
      assert w + t == t;
      assert [] + st[0] == st[0];
      assert [st[0]] + st[1..] == st;
    } else {
      var st := Split(t, sep);
      assert (w + t)[1..] == w[1..] + t;
      SplitPrefix(w[1..], t, sep);
      var rest := Split(w[1..] + t, sep);
      assert rest[1..] == st[1..];
      assert [w[0]] + (w[1..] + st[0]) == w + st[0];
    }
  }

  /** Round trip the other way: splitting a join of separator-free parts
      gives the parts back. */
  lemma {:induction false} SplitOfJoin(parts: seq<string>, sep: char)
    requires |parts| > 0
    requires forall i :: 0 <= i < |parts| ==> sep !in parts[i]
    ensures Split(Join(parts, [sep]), sep) == parts
    decreases |parts|
  {
    if |parts| == 1 {
      SplitPrefix(parts[0], [], sep);
      assert parts[0] + [] == parts[0];
    } else {
      var rest := Join(parts[1..], [sep]);
      SplitOfJoin(parts[1..], sep);
      assert Join(parts, [sep]) == parts[0] + ([sep] + rest);
      SplitPrefix(parts[0], [sep] + rest, sep);
      assert ([sep] + rest)[1..] == rest;
      assert Split([sep] + rest, sep) == [[]] + Split(rest, sep);
      assert parts[0] + [] == parts[0];
      assert parts == [parts[0]] + parts[1..];
    }
  }

  /** Reading a pipe in text mode (universal newlines): a `"\r\n"` pair
      and a lone `"\r"` both become `"\n"`, every other character is
      kept. */
  function TranslateNewlines(s: string): (t: string)
    ensures '\r' !in t
    ensures |t| <= |s|
    ensures '\r' !in s ==> t == s
    decreases |s|
  {
    if s == [] then []
    else if s[0] == '\r' then
      "\n" + TranslateNewlines(if |s| > 1 && s[1] == '\n' then s[2..] else s[1..])
    else
      assert '\r' !in s ==> '\r' !in s[1..] by {
        forall i | 0 <= i < |s[1..]| ensures s[1..][i] == s[i + 1] { }
      }
      [s[0]] + TranslateNewlines(s[1..])
  }

  /** Both carriage-return endings become one newline each. */
  lemma TranslateNewlinesEndings()
    ensures TranslateNewlines("a\r\nb\r") == "a\nb\n"
  {
    var lone, pair := "b\r", "a\r\nb\r";
    assert lone[1..] == "\r" && TranslateNewlines("\r") == "\n";
    assert TranslateNewlines(lone) == "b\n";
    assert pair[1..] == "\r\nb\r" && pair[1..][2..] == lone;
    assert TranslateNewlines(pair[1..]) == "\n" + TranslateNewlines(lone);
  }

  // ---------------------------------------------------------------------------
  // Whitespace tokenisation: `s.split()` and `s.strip()`
  // ---------------------------------------------------------------------------

  /** Python's `str.isspace()` for one character. */
  predicate IsSpace(c: char) {
    var n := c as int;
    (9 <= n <= 13) || (28 <= n <= 32) || n == 0x85 || n == 0xA0 || n == 0x1680
    || (0x2000 <= n <= 0x200A) || n == 0x2028 || n == 0x2029 || n == 0x202F
    || n == 0x205F || n == 0x3000
  }

  /** `s.strip() == ""` */
  predicate IsBlank(s: string) {
    forall i :: 0 <= i < |s| ==> IsSpace(s[i])
  }

  /** A token of `s.split()`: non-empty, no whitespace. */
  predicate IsWord(w: string) {
    |w| > 0 && forall i :: 0 <= i < |w| ==> !IsSpace(w[i])
  }

  /** Length of the leading run of non-whitespace characters. */
  function WordLen(s: string): (n: nat)
    ensures n <= |s|
    ensures forall i :: 0 <= i < n ==> !IsSpace(s[i])
    ensures n < |s| ==> IsSpace(s[n])
    decreases |s|
  {
    if s == [] || IsSpace(s[0]) then 0 else 1 + WordLen(s[1..])
  }

  /** `s.split()` with no argument: maximal whitespace-free runs, in order. */
  function Tokens(s: string): (ts: seq<string>)
    ensures forall i :: 0 <= i < |ts| ==> IsWord(ts[i])
    decreases |s|
  {
    if s == [] then []
    else if IsSpace(s[0]) then Tokens(s[1..])
    else
      var n := WordLen(s);
      [s[..n]] + Tokens(s[n..])
  }

  /** `s.split()` is empty exactly when `s.strip()` is. */
  lemma {:induction false} BlankIffNoTokens(s: string)
    ensures IsBlank(s) <==> Tokens(s) == []
    decreases |s|
  {
    if s != [] && IsSpace(s[0]) {
      BlankIffNoTokens(s[1..]);
      assert IsBlank(s) <==> IsBlank(s[1..]) by {
        if IsBlank(s[1..]) {
          forall i | 0 <= i < |s| ensures IsSpace(s[i]) {
            if i > 0 { assert s[i] == s[1..][i - 1]; }
          }
        }
      }
    }
  }

  lemma WordLenOfWordThenSpace(w: string, t: string)
    requires IsWord(w)
    requires t == [] || IsSpace(t[0])
    ensures WordLen(w + t) == |w|
    decreases |w|
  {
    if |w| > 1 {
      assert (w + t)[1..] == w[1..] + t;
      WordLenOfWordThenSpace(w[1..], t);
    } else {
      assert (w + t)[1..] == t;
    }
  }

  /** Round trip: `" ".join(ws).split() == ws` for whitespace-free words. */
  lemma {:induction false} TokensOfJoin(ws: seq<string>)
    requires forall i :: 0 <= i < |ws| ==> IsWord(ws[i])
    ensures Tokens(Join(ws, " ")) == ws
    decreases |ws|
  {
    if ws == [] {
    } else if |ws| == 1 {
      TokensOfWord(ws[0]);
    } else {
      var w := ws[0];
      var rest := Join(ws[1..], " ");
      assert Join(ws, " ") == w + (" " + rest);
      WordThenSpace(w, rest);
      TokensOfJoin(ws[1..]);
      assert ws == [w] + ws[1..];
    }
  }

  /** A word followed by a space splits into that word, then whatever the
      remainder splits into. */
  lemma WordThenSpace(w: string, rest: string)
    requires IsWord(w)
    ensures Tokens(w + (" " + rest)) == [w] + Tokens(rest)
  {
    var s := w + (" " + rest);
    WordLenOfWordThenSpace(w, " " + rest);
    SplitAfter(w, " " + rest, |w|);
    assert w[..|w|] == w;
    assert (" " + rest)[1..] == rest;
  }

  /** A single word splits into itself. */
  lemma TokensOfWord(w: string)
    requires IsWord(w)
    ensures Tokens(w) == [w]
  {
    WordLenOfWordThenSpace(w, []);
    assert w + [] == w;
    assert w[..|w|] == w;
    assert w[|w|..] == [];
  }

  lemma {:induction false} WordLenAppend(a: string, b: string)
    requires WordLen(a) < |a| || b == [] || IsSpace(b[0])
    ensures WordLen(a + b) == WordLen(a)
    decreases |a|
  {
    if a == [] {
      assert a + b == b;
    } else if !IsSpace(a[0]) {
      assert (a + b)[1..] == a[1..] + b;
      WordLenAppend(a[1..], b);
    }
  }

  /** `(a + b).split() == a.split() + b.split()` when whitespace separates
      the two parts. */
  lemma {:induction false} TokensAppend(a: string, b: string)
    requires a == [] || b == [] || IsSpace(a[|a| - 1]) || IsSpace(b[0])
    ensures Tokens(a + b) == Tokens(a) + Tokens(b)
    decreases |a|, 1
  {
    if a == [] {
      assert a + b == b;
    } else if IsSpace(a[0]) {
      TokensAppendSpaceFirst(a, b);
    } else {
      TokensAppendWordFirst(a, b);
    }
  }

  lemma {:induction false} TokensAppendSpaceFirst(a: string, b: string)
    requires a != [] && IsSpace(a[0])
    requires b == [] || IsSpace(a[|a| - 1]) || IsSpace(b[0])
    ensures Tokens(a + b) == Tokens(a) + Tokens(b)
    decreases |a|, 0
  {
    var t := a[1..];
    assert (a + b)[0] == a[0];
    assert (a + b)[1..] == t + b;
    assert t == [] || IsSpace(t[|t| - 1]) || b == [] || IsSpace(b[0]) by {
      if t != [] { assert t[|t| - 1] == a[|a| - 1]; }
    }
    TokensAppend(t, b);
  }

  lemma {:induction false} TokensAppendWordFirst(a: string, b: string)
    requires a != [] && !IsSpace(a[0])
    requires b == [] || IsSpace(a[|a| - 1]) || IsSpace(b[0])
    ensures Tokens(a + b) == Tokens(a) + Tokens(b)
    decreases |a|, 0
  {
    var n := WordLen(a);
    FirstWordAppend(a, b);
    SplitAfter(a, b, n);
    RestAfterFirstWord(a, b);
    TokensAppend(a[n..], b);
    assert Tokens(a + b) == [a[..n]] + Tokens(a[n..] + b);
  }

  /** The first word of `a + b` is the first word of `a` when whitespace
      separates the two parts. */
  lemma FirstWordAppend(a: string, b: string)
    requires a != [] && !IsSpace(a[0])
    requires b == [] || IsSpace(a[|a| - 1]) || IsSpace(b[0])
    ensures WordLen(a + b) == WordLen(a)
  {
    if WordLen(a) == |a| {
      assert !IsSpace(a[|a| - 1]);
    }
    WordLenAppend(a, b);
  }

  /** What follows the first word of `a` still ends in whitespace, or `b`
      starts with it. */
  lemma RestAfterFirstWord(a: string, b: string)
    requires a != [] && !IsSpace(a[0])
    requires b == [] || IsSpace(a[|a| - 1]) || IsSpace(b[0])
    ensures var t := a[WordLen(a)..]; t == [] || b == [] || IsSpace(t[|t| - 1]) || IsSpace(b[0])
  {
    var t := a[WordLen(a)..];
    if t != [] {
      assert t[|t| - 1] == a[|a| - 1];
    }
  }

  lemma SplitAfter<T>(a: seq<T>, b: seq<T>, n: nat)
    requires n <= |a|
    ensures (a + b)[..n] == a[..n] && (a + b)[n..] == a[n..] + b
  {
  }

  /** Leading whitespace, then a word, then whitespace or nothing: the word
      is the first token. */
  lemma FirstToken(sp: string, w: string, rest: string)
    requires IsBlank(sp) && IsWord(w)
    requires rest == [] || IsSpace(rest[0])
    ensures Tokens(sp + w + rest) == [w] + Tokens(rest)
  {
    BlankIffNoTokens(sp);
    TokensOfWord(w);
    TokensAppend(w, rest);
    TokensAppend(sp, w + rest);
    assert sp + w + rest == sp + (w + rest);
  }

  /** What `" ".join(ws)` of one or more words looks like: non-empty, no
      whitespace at either end, every whitespace character a single plain
      space with no neighbouring whitespace. */
  predicate SingleSpaced(s: string) {
    && |s| > 0
    && !IsSpace(s[0])
    && !IsSpace(s[|s| - 1])
    && (forall i :: 0 <= i < |s| && IsSpace(s[i]) ==> s[i] == ' ')
    && (forall i :: 0 <= i < |s| - 1 ==> !IsSpace(s[i]) || !IsSpace(s[i + 1]))
  }

  lemma {:induction false} JoinWordsSingleSpaced(ws: seq<string>)
    requires |ws| > 0
    requires forall i :: 0 <= i < |ws| ==> IsWord(ws[i])
    ensures SingleSpaced(Join(ws, " "))
    decreases |ws|
  {
    if |ws| > 1 {
      var w := ws[0];
      var rest := Join(ws[1..], " ");
      JoinWordsSingleSpaced(ws[1..]);
      var s := w + " " + rest;
      assert Join(ws, " ") == s;
      assert IsWord(w);
      forall i | 0 <= i < |s| && IsSpace(s[i])
        ensures s[i] == ' '
      {
        if i > |w| { assert s[i] == rest[i - |w| - 1]; }
      }
      forall i | 0 <= i < |s| - 1
        ensures !IsSpace(s[i]) || !IsSpace(s[i + 1])
      {
        if i > |w| {
          assert s[i] == rest[i - |w| - 1];
          assert s[i + 1] == rest[i - |w|];
        } else if i == |w| {
          assert s[i + 1] == rest[0];
        }
      }
    }
  }

  // ---------------------------------------------------------------------------
  // Replacement: `s.replace(pat, rep)`
  // ---------------------------------------------------------------------------

  /** Left-to-right, non-overlapping replacement of every occurrence. */
  function ReplaceAll(s: string, pat: string, rep: string): (r: string)
    requires |pat| > 0
    ensures !Contains(s, pat) ==> r == s
    ensures rep == [] ==> |r| <= |s|
    ensures rep == [] && Contains(s, pat) ==> |r| < |s|
    decreases |s|
  {
    if |s| < |pat| then
      s
    else if s[..|pat|] == pat then
      rep + ReplaceAll(s[|pat|..], pat, rep)
    else
      SubstringStep(pat, s);
      [s[0]] + ReplaceAll(s[1..], pat, rep)
  }

  // ---------------------------------------------------------------------------
  // Python's string ordering (code point by code point)
  // ---------------------------------------------------------------------------

  /** `a <= b` on Python strings. */
  predicate LexLe(a: string, b: string)
    decreases |a|
  {
    |a| == 0 || (|b| > 0 && (a[0] < b[0] || (a[0] == b[0] && LexLe(a[1..], b[1..]))))
  }

  lemma {:induction false} LexLeReflexive(a: string)
    ensures LexLe(a, a)
    decreases |a|
  {
    if |a| > 0 { LexLeReflexive(a[1..]); }
  }

  lemma {:induction false} LexLeTotal(a: string, b: string)
    ensures LexLe(a, b) || LexLe(b, a)
    decreases |a|
  {
    if |a| > 0 && |b| > 0 && a[0] == b[0] { LexLeTotal(a[1..], b[1..]); }
  }

  lemma {:induction false} LexLeTransitive(a: string, b: string, c: string)
    requires LexLe(a, b) && LexLe(b, c)
    ensures LexLe(a, c)
    decreases |a|
  {
    if |a| > 0 && a[0] == b[0] && b[0] == c[0] {
      LexLeTransitive(a[1..], b[1..], c[1..]);
    }
  }

  lemma {:induction false} LexLeAntisymmetric(a: string, b: string)
    requires LexLe(a, b) && LexLe(b, a)
    ensures a == b
    decreases |a|
  {
    if |a| > 0 {
      LexLeAntisymmetric(a[1..], b[1..]);
      assert a == [a[0]] + a[1..] && b == [b[0]] + b[1..];
    }
  }
}
