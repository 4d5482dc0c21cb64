/** The JavaScript string operations the holiday parser and the date
    annotation use: `trim`, `split` (on one character and on the regular
    expression `/[\s/]+/`), `join`, `toLowerCase` and `parseInt(s, 10)`. */
module JsText {
  import opened Options

  /** The code points of ECMAScript's WhiteSpace and LineTerminator
      productions: what `trim()` removes and what `\s` matches. */
  const WHITESPACE: set<char> := {
    '\t', '\n', '\U{000B}', '\U{000C}', '\r', ' ', '\U{00A0}', '\U{1680}',
    '\U{2000}', '\U{2001}', '\U{2002}', '\U{2003}', '\U{2004}', '\U{2005}',
    '\U{2006}', '\U{2007}', '\U{2008}', '\U{2009}', '\U{200A}',
    '\U{2028}', '\U{2029}', '\U{202F}', '\U{205F}', '\U{3000}', '\U{FEFF}'
  }

  predicate IsWhitespace(c: char)
  {
    c in WHITESPACE
  }

  /** The number of whitespace characters that start `s`. */
  function LeadingWhitespace(s: string): (n: nat)
    ensures n <= |s|
    ensures forall i :: 0 <= i < n ==> IsWhitespace(s[i])
    ensures n < |s| ==> !IsWhitespace(s[n])
  {
    if s == [] || !IsWhitespace(s[0]) then 0 else 1 + LeadingWhitespace(s[1..])
  }

  /** The number of whitespace characters that end `s`. */
  function TrailingWhitespace(s: string): (n: nat)
    ensures n <= |s|
    ensures forall i :: |s| - n <= i < |s| ==> IsWhitespace(s[i])
    ensures n < |s| ==> !IsWhitespace(s[|s| - n - 1])
  {
    if s == [] || !IsWhitespace(s[|s| - 1]) then 0 else 1 + TrailingWhitespace(s[..|s| - 1])
  }

  /** `s` with its leading whitespace removed. */
  function TrimStart(s: string): string
  {
    s[LeadingWhitespace(s)..]
  }

  /** `s` with its trailing whitespace removed. */
  function TrimEnd(s: string): string
  {
    s[..|s| - TrailingWhitespace(s)]
  }

  /** `s.trim()`. */
  function Trim(s: string): string
  {
    TrimEnd(TrimStart(s))
  }

  /** `trim()` leaves nothing exactly when every character is whitespace. */
  lemma TrimBlank(s: string)
    ensures Trim(s) == [] <==> forall i :: 0 <= i < |s| ==> IsWhitespace(s[i])
  {
    var k := LeadingWhitespace(s);
    var t := TrimStart(s);
    if k < |s| {
      assert t[0] == s[k];
      assert TrailingWhitespace(t) < |t|;
    }
  }

  /** A non-empty trimmed text starts and ends with non-whitespace, and it
      is the original text less a whitespace prefix and a whitespace suffix. */
  lemma TrimEdges(s: string)
    ensures var r := Trim(s);
      r != [] ==> !IsWhitespace(r[0]) && !IsWhitespace(r[|r| - 1])
    ensures var k := LeadingWhitespace(s);
      Trim(s) == s[k..k + |Trim(s)|]
    ensures forall i :: 0 <= i < LeadingWhitespace(s) ==> IsWhitespace(s[i])
    ensures forall i :: LeadingWhitespace(s) + |Trim(s)| <= i < |s| ==> IsWhitespace(s[i])
  {
    TrimEnds(s);
    TrimSlice(s);
    TrimTail(s);
  }

  /** A non-empty trimmed text starts and ends with non-whitespace. */
  lemma TrimEnds(s: string)
    ensures var r := Trim(s);
      r != [] ==> !IsWhitespace(r[0]) && !IsWhitespace(r[|r| - 1])
  {
    var k := LeadingWhitespace(s);
    var t := TrimStart(s);
    var r := Trim(s);
    if r != [] {
      assert r[0] == t[0] == s[k];
      assert r[|r| - 1] == t[|t| - TrailingWhitespace(t) - 1];
    }
  }

  /** The trimmed text is the slice that starts after the leading whitespace. */
  lemma TrimSlice(s: string)
    ensures var k := LeadingWhitespace(s);
      Trim(s) == s[k..k + |Trim(s)|]
  {
  }

  /** What `trim()` drops after the kept text is whitespace. */
  lemma TrimTail(s: string)
    ensures forall i :: LeadingWhitespace(s) + |Trim(s)| <= i < |s| ==> IsWhitespace(s[i])
  {
    var k := LeadingWhitespace(s);
    var t := TrimStart(s);
    forall i | k + |Trim(s)| <= i < |s|
      ensures IsWhitespace(s[i])
    {
      assert s[i] == t[i - k];
    }
  }

  /** What a split cuts at: one character (`s.split(':')`), or any character
      of the class `[\s/]`. */
  datatype Separator = Char(c: char) | WhitespaceOrSlash

  predicate IsSeparator(sep: Separator, c: char)
  {
    match sep
    case Char(x) => c == x
    case WhitespaceOrSlash => IsWhitespace(c) || c == '/'
  }

  /** The index of the first separator in `s`, or `|s|` when there is none. */
  function FirstSeparator(s: string, sep: Separator): (i: nat)
    ensures i <= |s|
    ensures forall j :: 0 <= j < i ==> !IsSeparator(sep, s[j])
    ensures i < |s| ==> IsSeparator(sep, s[i])
  {
    if s == [] || IsSeparator(sep, s[0]) then 0 else 1 + FirstSeparator(s[1..], sep)
  }

  /** The pieces of `s` between single separator characters, as `split`
      with a one-character separator gives them: the text up to the first
      separator, then the pieces of the text after it. */
  function SplitOn(s: string, sep: Separator): (parts: seq<string>)
    ensures |parts| >= 1
    decreases |s|
  {
    var i := FirstSeparator(s, sep);
    if i == |s| then [s] else [s[..i]] + SplitOn(s[i + 1..], sep)
  }

  /** No piece of a split holds a separator character. */
  lemma {:induction false} SplitPiecesClean(s: string, sep: Separator, k: int)
    requires 0 <= k < |SplitOn(s, sep)|
    ensures forall j :: 0 <= j < |SplitOn(s, sep)[k]| ==> !IsSeparator(sep, SplitOn(s, sep)[k][j])
    decreases |s|
  {
    var i := FirstSeparator(s, sep);
    if i < |s| && k > 0 {
      assert SplitOn(s, sep)[k] == SplitOn(s[i + 1..], sep)[k - 1];
      SplitPiecesClean(s[i + 1..], sep, k - 1);
    }
  }

  /** `parts.join(c)`. */
  function Join(parts: seq<string>, c: char): string
  {
    if parts == [] then ""
    else if |parts| == 1 then parts[0]
    else parts[0] + [c] + Join(parts[1..], c)
  }

  /** Splitting on a character and joining with it gives the text back. */
  lemma {:induction false} SplitJoin(s: string, c: char)
    ensures Join(SplitOn(s, Char(c)), c) == s
    decreases |s|
  {
    var i := FirstSeparator(s, Char(c));
    if i < |s| {
      SplitJoin(s[i + 1..], c);
      assert s == s[..i] + [c] + s[i + 1..];
    }
  }

  /** When `s` holds `c`, `s.split(c)` has at least two pieces, the first
      being the text before the first `c`, and `parts.slice(1).join(c)` is
      everything after the first `c`, later occurrences included. */
  lemma AfterFirst(s: string, c: char)
    requires FirstSeparator(s, Char(c)) < |s|
    ensures var parts := SplitOn(s, Char(c));
      |parts| >= 2 && parts[0] == s[..FirstSeparator(s, Char(c))]
      && Join(parts[1..], c) == s[FirstSeparator(s, Char(c)) + 1..]
  {
    var i := FirstSeparator(s, Char(c));
    var rest := s[i + 1..];
    var parts := SplitOn(s, Char(c));
    assert parts == [s[..i]] + SplitOn(rest, Char(c));
    assert parts[1..] == SplitOn(rest, Char(c));
    SplitJoin(rest, c);
  }

  /** The non-empty members of `parts`, in order. */
  function DropEmpty(parts: seq<string>): (r: seq<string>)
    ensures |r| <= |parts|
    ensures forall k :: 0 <= k < |r| ==> r[k] != [] && r[k] in parts
  {
    if parts == [] then []
    else if parts[0] == [] then DropEmpty(parts[1..])
    else [parts[0]] + DropEmpty(parts[1..])
  }

  /** `s.split(/[\s/]+/)` and the like: a run of separators cuts once, so
      empty pieces occur only first (text starting with a separator) and last
      (text ending with one). */
  function SplitRuns(s: string, sep: Separator): (tokens: seq<string>)
    ensures |tokens| >= 1
    ensures tokens[0] == s[..FirstSeparator(s, sep)]
    ensures |tokens| >= 2 <==> FirstSeparator(s, sep) < |s|
  {
    MergeRuns(SplitOn(s, sep))
  }

  /** The pieces of a one-character split with the empty ones between the
      first and the last dropped: a run of separators then cuts once. */
  function MergeRuns(parts: seq<string>): (tokens: seq<string>)
    requires |parts| >= 1
    ensures |tokens| >= 1 && tokens[0] == parts[0]
    ensures |tokens| >= 2 <==> |parts| >= 2
  {
    if |parts| == 1 then parts
    else [parts[0]] + DropEmpty(parts[1..|parts| - 1]) + [parts[|parts| - 1]]
  }

  predicate IsUpperAscii(c: char)
  {
    'A' <= c <= 'Z'
  }

  /** No token of `split(/[\s/]+/)` holds a separator character. */
  lemma SplitRunsClean(s: string, sep: Separator)
    ensures var tokens := SplitRuns(s, sep);
      forall k, j :: 0 <= k < |tokens| && 0 <= j < |tokens[k]| ==> !IsSeparator(sep, tokens[k][j])
  {
    var parts := SplitOn(s, sep);
    var tokens := SplitRuns(s, sep);
    forall k | 0 <= k < |tokens|
      ensures forall j :: 0 <= j < |tokens[k]| ==> !IsSeparator(sep, tokens[k][j])
    {
      assert tokens[k] in parts by {
        if 0 < k < |tokens| - 1 {
          var middle := DropEmpty(parts[1..|parts| - 1]);
          assert tokens[k] == middle[k - 1];
          assert tokens[k] in parts[1..|parts| - 1];
        }
      }
      var m :| 0 <= m < |parts| && parts[m] == tokens[k];
      SplitPiecesClean(s, sep, m);
    }
  }

  /** Only the first and the last token can be empty. */
  lemma SplitRunsInnerNonEmpty(s: string, sep: Separator)
    ensures var tokens := SplitRuns(s, sep);
      forall k :: 0 < k < |tokens| - 1 ==> tokens[k] != []
  {
    var parts := SplitOn(s, sep);
    var tokens := SplitRuns(s, sep);
    forall k | 0 < k < |tokens| - 1
      ensures tokens[k] != []
    {
      var middle := DropEmpty(parts[1..|parts| - 1]);
      assert tokens[k] == middle[k - 1];
    }
  }

  /** The second token: after a first piece `a` and a run of separators,
      the separator-free text `b` up to the next separator (or the end). */
  lemma SplitRunsSecond(a: string, seps: string, b: string, rest: string, sep: Separator)
    requires forall i :: 0 <= i < |a| ==> !IsSeparator(sep, a[i])
    requires seps != [] && forall i :: 0 <= i < |seps| ==> IsSeparator(sep, seps[i])
    requires b != [] && forall i :: 0 <= i < |b| ==> !IsSeparator(sep, b[i])
    requires rest == [] || IsSeparator(sep, rest[0])
    ensures var tokens := SplitRuns(a + seps + b + rest, sep);
      |tokens| >= 2 && tokens[0] == a && tokens[1] == b
    ensures rest == [] ==> SplitRuns(a + seps + b + rest, sep) == [a, b]
  {
    var s := a + seps + b + rest;
    var more := if rest == [] then [] else SplitOn(rest[1..], sep);
    calc {
      SplitOn(s, sep);
      { assert s == a + seps + (b + rest); }
      SplitOn(a + seps + (b + rest), sep);
      { SplitOnCut(a, seps, b + rest, sep); }
      [a] + Blanks(|seps| - 1) + SplitOn(b + rest, sep);
      { SplitOnAfterRun(b, rest, sep); }
      [a] + Blanks(|seps| - 1) + ([b] + more);
      [a] + Blanks(|seps| - 1) + [b] + more;
    }
    SplitRunsOfPieces(s, sep, a, |seps| - 1, b, more);
  }

  /** The pieces of a separator-free `b` followed by nothing or by a
      separator. */
  lemma SplitOnAfterRun(b: string, rest: string, sep: Separator)
    requires forall i :: 0 <= i < |b| ==> !IsSeparator(sep, b[i])
    requires rest == [] || IsSeparator(sep, rest[0])
    ensures SplitOn(b + rest, sep) == [b] + (if rest == [] then [] else SplitOn(rest[1..], sep))
  {
    if rest == [] {
      assert b + rest == b;
      SplitOnClean(b, sep);
    } else {
      SplitOnAt(b, rest, sep);
    }
  }

  /** The tokens of a split whose pieces are `a`, `n` empty pieces, a
      non-empty `b` and then `more`. */
  lemma SplitRunsOfPieces(s: string, sep: Separator, a: string, n: nat, b: string, more: seq<string>)
    requires b != []
    requires SplitOn(s, sep) == [a] + Blanks(n) + [b] + more
    ensures |SplitRuns(s, sep)| >= 2 && SplitRuns(s, sep)[0] == a && SplitRuns(s, sep)[1] == b
    ensures more == [] ==> SplitRuns(s, sep) == [a, b]
  {
    MergePieces(a, n, b, more);
  }

  lemma MergePieces(a: string, n: nat, b: string, more: seq<string>)
    requires b != []
    ensures var tokens := MergeRuns([a] + Blanks(n) + [b] + more);
      |tokens| >= 2 && tokens[0] == a && tokens[1] == b
    ensures more == [] ==> MergeRuns([a] + Blanks(n) + [b] + more) == [a, b]
  {
    if more == [] {
      assert [a] + Blanks(n) + [b] + more == [a] + Blanks(n) + [b];
      MergeLast(a, n, b);
    } else {
      MergeInner(a, n, b, more);
    }
  }

  lemma MergeLast(a: string, n: nat, b: string)
    ensures MergeRuns([a] + Blanks(n) + [b]) == [a, b]
  {
    var parts := [a] + Blanks(n) + [b];
    calc {
      MergeRuns(parts);
      [parts[0]] + DropEmpty(parts[1..|parts| - 1]) + [parts[|parts| - 1]];
      { assert parts[1..|parts| - 1] == Blanks(n) + []; DropBlanks(n, []); }
      [a] + DropEmpty([]) + [b];
      [a, b];
    }
  }

  lemma MergeInner(a: string, n: nat, b: string, more: seq<string>)
    requires b != [] && more != []
    ensures var tokens := MergeRuns([a] + Blanks(n) + [b] + more);
      |tokens| >= 2 && tokens[1] == b
  {
    var init, last := more[..|more| - 1], more[|more| - 1];
    calc {
      MergeRuns([a] + Blanks(n) + [b] + more);
      { Regroup(a, n, b, more); }
      MergeRuns([a] + (Blanks(n) + ([b] + init)) + [last]);
      { MergeShape(a, Blanks(n) + ([b] + init), last); }
      [a] + DropEmpty(Blanks(n) + ([b] + init)) + [last];
      { DropBlanks(n, [b] + init); }
      [a] + DropEmpty([b] + init) + [last];
      { DropKeepsWord(b, init); }
      [a] + ([b] + DropEmpty(init)) + [last];
    }
    SecondToken(a, b, DropEmpty(init), last);
  }

  /** The pieces of a split with the last one set apart. */
  lemma Regroup(a: string, n: nat, b: string, more: seq<string>)
    requires more != []
    ensures [a] + Blanks(n) + [b] + more
         == [a] + (Blanks(n) + ([b] + more[..|more| - 1])) + [more[|more| - 1]]
  {
    assert more == more[..|more| - 1] + [more[|more| - 1]];
  }

  /** Merging keeps the first and the last piece and drops the empty
      pieces between them. */
  lemma MergeShape(a: string, mid: seq<string>, last: string)
    ensures MergeRuns([a] + mid + [last]) == [a] + DropEmpty(mid) + [last]
  {
    var parts := [a] + mid + [last];
    assert parts[1..|parts| - 1] == mid;
  }

  lemma SecondToken(a: string, b: string, d: seq<string>, last: string)
    ensures |[a] + ([b] + d) + [last]| >= 2 && ([a] + ([b] + d) + [last])[1] == b
  {
  }

  /** A non-empty piece in front survives the merge. */
  lemma DropKeepsWord(b: string, rest: seq<string>)
    requires b != []
    ensures DropEmpty([b] + rest) == [b] + DropEmpty(rest)
  {
    assert ([b] + rest)[1..] == rest;
  }

  /** A first piece `a`, then one empty piece per further separator of the
      run, then the pieces of what follows the run. */
  lemma SplitOnCut(a: string, seps: string, t: string, sep: Separator)
    requires forall i :: 0 <= i < |a| ==> !IsSeparator(sep, a[i])
    requires seps != [] && forall i :: 0 <= i < |seps| ==> IsSeparator(sep, seps[i])
    ensures SplitOn(a + seps + t, sep) == [a] + Blanks(|seps| - 1) + SplitOn(t, sep)
  {
    calc {
      SplitOn(a + seps + t, sep);
      { assert a + seps + t == a + (seps + t); }
      SplitOn(a + (seps + t), sep);
      { SplitOnAt(a, seps + t, sep); }
      [a] + SplitOn((seps + t)[1..], sep);
      { assert (seps + t)[1..] == seps[1..] + t; }
      [a] + SplitOn(seps[1..] + t, sep);
      { SplitOnRun(seps[1..], t, sep); }
      [a] + (Blanks(|seps| - 1) + SplitOn(t, sep));
      [a] + Blanks(|seps| - 1) + SplitOn(t, sep);
    }
  }

  /** `n` empty pieces. */
  function Blanks(n: nat): (r: seq<string>)
    ensures |r| == n
  {
    if n == 0 then [] else [""] + Blanks(n - 1)
  }

  /** Empty pieces in front are dropped. */
  lemma {:induction false} DropBlanks(n: nat, rest: seq<string>)
    ensures DropEmpty(Blanks(n) + rest) == DropEmpty(rest)
  {
    if n > 0 {
      var x := Blanks(n) + rest;
      assert x == [""] + (Blanks(n - 1) + rest);
      assert x[0] == [] && x[1..] == Blanks(n - 1) + rest;
      assert DropEmpty(x) == DropEmpty(x[1..]);
      DropBlanks(n - 1, rest);
    } else {
      assert Blanks(n) + rest == rest;
    }
  }

  /** Text without a separator is a single piece. */
  lemma SplitOnClean(x: string, sep: Separator)
    requires forall i :: 0 <= i < |x| ==> !IsSeparator(sep, x[i])
    ensures SplitOn(x, sep) == [x]
  {
    assert FirstSeparator(x, sep) == |x|;
  }

  /** Separator-free text followed by a separator is the first piece. */
  lemma SplitOnAt(x: string, t: string, sep: Separator)
    requires forall i :: 0 <= i < |x| ==> !IsSeparator(sep, x[i])
    requires t != [] && IsSeparator(sep, t[0])
    ensures SplitOn(x + t, sep) == [x] + SplitOn(t[1..], sep)
  {
    var s := x + t;
    assert s[|x|] == t[0];
    var i := FirstSeparator(s, sep);
    assert i == |x|;
    assert s[..i] == x && s[i + 1..] == t[1..];
  }

  /** Each separator of a run in front cuts off one empty piece. */
  lemma {:induction false} SplitOnRun(seps: string, t: string, sep: Separator)
    requires forall i :: 0 <= i < |seps| ==> IsSeparator(sep, seps[i])
    ensures SplitOn(seps + t, sep) == Blanks(|seps|) + SplitOn(t, sep)
    decreases |seps|
  {
    if seps != [] {
      var s := seps + t;
      assert IsSeparator(sep, s[0]);
      assert FirstSeparator(s, sep) == 0;
      assert s[..0] == "" && s[1..] == seps[1..] + t;
      assert SplitOn(s, sep) == [""] + SplitOn(seps[1..] + t, sep);
      SplitOnRun(seps[1..], t, sep);
      assert |seps[1..]| == |seps| - 1;
      assert Blanks(|seps|) == [""] + Blanks(|seps| - 1);
      assert Blanks(|seps|) + SplitOn(t, sep) == [""] + (Blanks(|seps| - 1) + SplitOn(t, sep));
    } else {
      assert seps + t == t;
    }
  }

  /** A text that ends in its first separator run has an empty second
      token, and nothing after it. */
  lemma SplitRunsTrailing(a: string, seps: string, sep: Separator)
    requires forall i :: 0 <= i < |a| ==> !IsSeparator(sep, a[i])
    requires seps != [] && forall i :: 0 <= i < |seps| ==> IsSeparator(sep, seps[i])
    ensures SplitRuns(a + seps, sep) == [a, ""]
  {
    calc {
      SplitOn(a + seps, sep);
      { assert a + seps == a + seps + ""; }
      SplitOn(a + seps + "", sep);
      { SplitOnCut(a, seps, "", sep); }
      [a] + Blanks(|seps| - 1) + SplitOn("", sep);
      { assert FirstSeparator("", sep) == 0; }
      [a] + Blanks(|seps| - 1) + [""];
    }
    MergeLast(a, |seps| - 1, "");
  }

  /** Three examples of `split(/[\s/]+/)`: a spaced slash is one cut, and a
      trailing slash leaves an empty last token. */
  lemma SplitRunsExamples()
    ensures SplitRuns("17 / aug", WhitespaceOrSlash) == ["17", "aug"]
    ensures SplitRuns("25 aug/", WhitespaceOrSlash)[1] == "aug"
    ensures SplitRuns("17/", WhitespaceOrSlash) == ["17", ""]
  {
    assert "17/" == "17" + "/";
    SplitRunsTrailing("17", "/", WhitespaceOrSlash);
    assert "17 / aug" == "17" + " / " + "aug" + "";
    SplitRunsSecond("17", " / ", "aug", "", WhitespaceOrSlash);
    assert "25 aug/" == "25" + " " + "aug" + "/";
    SplitRunsSecond("25", " ", "aug", "/", WhitespaceOrSlash);
  }

  function LowerAscii(c: char): (r: char)
  {
    if IsUpperAscii(c) then (c as int + 32) as char else c
  }

  /** `s.toLowerCase()` on ASCII letters: no capital letter is left, each
      capital becomes its small letter, and every other character is kept. */
  function ToLowerAscii(s: string): (r: string)
    ensures |r| == |s|
    ensures forall i :: 0 <= i < |r| ==> !IsUpperAscii(r[i])
    ensures forall i :: 0 <= i < |s| && !IsUpperAscii(s[i]) ==> r[i] == s[i]
    ensures forall i :: 0 <= i < |s| && IsUpperAscii(s[i]) ==> r[i] as int - 'a' as int == s[i] as int - 'A' as int
  {
    seq(|s|, i requires 0 <= i < |s| => LowerAscii(s[i]))
  }

  /** Text without capital letters is its own lowercase; so lowercasing
      twice is lowercasing once. */
  lemma LowerWithoutCapitals(s: string)
    requires forall i :: 0 <= i < |s| ==> !IsUpperAscii(s[i])
    ensures ToLowerAscii(s) == s
  {
  }

  lemma LowerTwice(s: string)
    ensures ToLowerAscii(ToLowerAscii(s)) == ToLowerAscii(s)
  {
    LowerWithoutCapitals(ToLowerAscii(s));
  }

  /** Two texts that differ only in the case of their letters lowercase to
      the same text. */
  lemma LowerIgnoresCase(s: string, t: string)
    requires |s| == |t|
    requires forall i :: 0 <= i < |s| ==> LowerAscii(s[i]) == LowerAscii(t[i])
    ensures ToLowerAscii(s) == ToLowerAscii(t)
  {
  }

  predicate IsDigit(c: char)
  {
    '0' <= c <= '9'
  }

  function DigitValue(c: char): (v: int)
    requires IsDigit(c)
    ensures 0 <= v <= 9
  {
    c as int - '0' as int
  }

  /** The length of the run of decimal digits that starts `s`. */
  function DigitRun(s: string): (n: nat)
    ensures n <= |s|
    ensures forall i :: 0 <= i < n ==> IsDigit(s[i])
    ensures n < |s| ==> !IsDigit(s[n])
  {
    if s == [] || !IsDigit(s[0]) then 0 else 1 + DigitRun(s[1..])
  }

  /** The value of a string of decimal digits, most significant first. */
  function DigitsValue(s: string): (v: nat)
    requires forall i :: 0 <= i < |s| ==> IsDigit(s[i])
  {
    if s == [] then 0 else DigitsValue(s[..|s| - 1]) * 10 + DigitValue(s[|s| - 1])
  }

  /** The longest run of decimal digits that starts `u`, read as a number;
      `None` when it is empty. */
  function ReadDigits(u: string): (r: Option<nat>)
    ensures r.None? <==> u == [] || !IsDigit(u[0])
  {
    var n := DigitRun(u);
    if n == 0 then None else Some(DigitsValue(u[..n]))
  }

  /** The sign step of `parseInt` on text without leading whitespace. */
  function ReadSigned(t: string): (r: Option<int>)
  {
    var negative := t != [] && t[0] == '-';
    var u := if t != [] && (t[0] == '-' || t[0] == '+') then t[1..] else t;
    match ReadDigits(u)
    case None => None
    case Some(magnitude) => if negative then Some(-(magnitude as int)) else Some(magnitude)
  }

  /** `parseInt(s, 10)`: skip leading whitespace, read an optional sign, then
      the longest run of decimal digits; `None` (NaN) when that run is empty.
      Whatever follows the digits is ignored. */
  function ParseInt(s: string): (r: Option<int>)
  {
    ReadSigned(TrimStart(s))
  }

  /** The decimal spelling of `n`, without leading zeros. */
  function DecimalString(n: nat): (s: string)
    ensures s != [] && forall i :: 0 <= i < |s| ==> IsDigit(s[i])
  {
    var last := ('0' as int + n % 10) as char;
    if n < 10 then [last] else DecimalString(n / 10) + [last]
  }

  lemma {:induction false} DecimalValue(n: nat)
    ensures DigitsValue(DecimalString(n)) == n
  {
    if n >= 10 {
      DecimalValue(n / 10);
      var s := DecimalString(n);
      assert s[..|s| - 1] == DecimalString(n / 10);
    }
  }

  /** The spelling starts with '0' only for zero itself. */
  lemma {:induction false} DecimalNoLeadingZero(n: nat)
    ensures DecimalString(n)[0] == '0' <==> n == 0
  {
    if n >= 10 {
      DecimalNoLeadingZero(n / 10);
      assert DecimalString(n)[0] == DecimalString(n / 10)[0];
    }
  }

  lemma {:induction false} DigitRunOfDigits(ds: string, rest: string)
    requires forall i :: 0 <= i < |ds| ==> IsDigit(ds[i])
    requires rest == [] || !IsDigit(rest[0])
    ensures DigitRun(ds + rest) == |ds|
  {
    if ds != [] {
      assert (ds + rest)[1..] == ds[1..] + rest;
      DigitRunOfDigits(ds[1..], rest);
    }
  }

  /** A decimal spelling followed by a non-digit reads back as the number. */
  lemma DecimalPrefix(n: nat, rest: string)
    requires rest == [] || !IsDigit(rest[0])
    ensures var t := DecimalString(n) + rest; t != [] && IsDigit(t[0]) && ReadDigits(t) == Some(n)
  {
    var ds := DecimalString(n);
    DecimalValue(n);
    DigitRunOfDigits(ds, rest);
    assert (ds + rest)[..|ds|] == ds;
    assert IsDigit((ds + rest)[0]);
  }

  /** Text that starts with a digit is read from its first character. */
  lemma ParseIntAtDigit(t: string)
    requires t != [] && IsDigit(t[0])
    ensures ParseInt(t) == Some(ReadDigits(t).value)
  {
    assert !IsWhitespace(t[0]);
    assert TrimStart(t) == t;
  }

  /** `parseInt` gives a number exactly when, after the leading whitespace,
      the text starts with a digit, or with a sign followed by a digit;
      otherwise it gives NaN. */
  lemma ParseIntDefined(t: string)
    ensures var u := TrimStart(t);
      ParseInt(t).Some? <==>
        u != [] && (IsDigit(u[0]) || ((u[0] == '-' || u[0] == '+') && |u| >= 2 && IsDigit(u[1])))
  {
  }

  /** A plus sign is read and dropped. */
  lemma ParseIntAtPlus(t: string)
    requires t != [] && IsDigit(t[0])
    ensures ParseInt("+" + t) == Some(ReadDigits(t).value)
  {
    var m := "+" + t;
    assert m[0] == '+' && !IsWhitespace(m[0]);
    assert TrimStart(m) == m;
    assert m[1..] == t;
  }

  /** Words and bare signs are not numbers. */
  lemma ParseIntNaN()
    ensures ParseInt("abc") == None
    ensures ParseInt("-") == None
    ensures ParseInt(" +x") == None
  {
    assert !IsWhitespace('a') && !IsWhitespace('-') && IsWhitespace(' ') && !IsWhitespace('+');
    assert TrimStart("abc") == "abc";
    assert TrimStart("-") == "-";
    assert TrimStart(" +x") == "+x";
  }

  /** After a minus sign, text that starts with a digit is read negated. */
  lemma ParseIntAtMinus(t: string)
    requires t != [] && IsDigit(t[0])
    ensures ParseInt("-" + t) == Some(-(ReadDigits(t).value as int))
  {
    var m := "-" + t;
    assert m[0] == '-' && !IsWhitespace(m[0]);
    assert TrimStart(m) == m;
    assert m[1..] == t;
  }

  /** `parseInt` reads back a decimal number, whatever non-digit text
      follows it. */
  lemma ParseIntUnsigned(n: nat, rest: string)
    requires rest == [] || !IsDigit(rest[0])
    ensures ParseInt(DecimalString(n) + rest) == Some(n)
  {
    var t := DecimalString(n) + rest;
    DecimalPrefix(n, rest);
    assert t != [] && IsDigit(t[0]) && ReadDigits(t) == Some(n);
    ParseIntAtDigit(t);
  }

  /** `parseInt` reads back a negative decimal number, whatever non-digit
      text follows it. */
  lemma ParseIntNegative(n: nat, rest: string)
    requires rest == [] || !IsDigit(rest[0])
    ensures ParseInt("-" + (DecimalString(n) + rest)) == Some(-(n as int))
  {
    var t := DecimalString(n) + rest;
    DecimalPrefix(n, rest);
    assert t != [] && IsDigit(t[0]) && ReadDigits(t) == Some(n);
    ParseIntAtMinus(t);
    assert ParseInt("-" + t) == Some(-(n as int));
  }
}
