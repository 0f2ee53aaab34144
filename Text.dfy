/** The string handling the glossary bot relies on: Python's `str.strip()`,
    `str.lower()`, `str.split(sep)` and `sep.join(parts)`, the two parsers built
    from them (example lines and comma-separated queries), and Python's
    code-point order on strings, which `sorted` uses. */
module Text {

  /** Python's `str.isspace()` on one code point. */
  predicate IsSpace(c: char)
  {
    || c == ' '
    || ('\t' <= c <= '\r')
    || ('\U{1C}' <= c <= '\U{1F}')
    || c == '\U{85}' || c == '\U{A0}' || c == '\U{1680}'
    || ('\U{2000}' <= c <= '\U{200A}')
    || c == '\U{2028}' || c == '\U{2029}' || c == '\U{202F}' || c == '\U{205F}' || c == '\U{3000}'
  }

  /** `str.lower()` on one character, restricted to the ASCII letters. */
  function LowerChar(c: char): (r: char)
    ensures !('A' <= r <= 'Z')
    ensures 'A' <= c <= 'Z' ==> r as int == c as int + 32
    ensures !('A' <= c <= 'Z') ==> r == c
  {
    if 'A' <= c <= 'Z' then (c as int - 'A' as int + 'a' as int) as char else c
  }

  /** `str.lower()`: the same length, and no upper-case ASCII letter left. */
  function ToLower(s: string): (r: string)
    ensures |r| == |s|
    ensures forall k :: 0 <= k < |r| ==> !('A' <= r[k] <= 'Z')
  {
    seq(|s|, k requires 0 <= k < |s| => LowerChar(s[k]))
  }

  /** `lower()` works character by character. */
  lemma ToLowerChars(s: string)
    ensures forall k :: 0 <= k < |s| ==> ToLower(s)[k] == LowerChar(s[k])
  {
  }

  /** `s.lstrip()`: whitespace dropped from the front. */
  function TrimStart(s: string): string
    decreases |s|
  {
    if s != [] && IsSpace(s[0]) then TrimStart(s[1..]) else s
  }

  /** What `lstrip` keeps is the suffix after the leading whitespace, and it
      does not start with whitespace. */
  lemma {:induction false} TrimStartSuffix(s: string)
    ensures |TrimStart(s)| <= |s| && TrimStart(s) == s[|s| - |TrimStart(s)|..]
    ensures forall k :: 0 <= k < |s| - |TrimStart(s)| ==> IsSpace(s[k])
    ensures TrimStart(s) != [] ==> !IsSpace(TrimStart(s)[0])
    decreases |s|
  {
    if s != [] && IsSpace(s[0]) {
      TrimStartSuffix(s[1..]);
      var r := TrimStart(s[1..]);
      assert s[1..][|s| - 1 - |r|..] == s[|s| - |r|..];
      forall k | 1 <= k < |s| - |r| ensures IsSpace(s[k]) {
        assert s[k] == s[1..][k - 1];
      }
    }
  }

  /** `s.rstrip()`: whitespace dropped from the back. */
  function TrimEnd(s: string): string
    decreases |s|
  {
    if s != [] && IsSpace(s[|s| - 1]) then TrimEnd(s[..|s| - 1]) else s
  }

  /** What `rstrip` keeps is the prefix before the trailing whitespace, and it
      does not end with whitespace. */
  lemma {:induction false} TrimEndPrefix(s: string)
    ensures |TrimEnd(s)| <= |s| && TrimEnd(s) == s[..|TrimEnd(s)|]
    ensures forall k :: |TrimEnd(s)| <= k < |s| ==> IsSpace(s[k])
    ensures TrimEnd(s) != [] ==> !IsSpace(TrimEnd(s)[|TrimEnd(s)| - 1])
    decreases |s|
  {
    if s != [] && IsSpace(s[|s| - 1]) {
      TrimEndPrefix(s[..|s| - 1]);
      var r := TrimEnd(s[..|s| - 1]);
      assert s[..|s| - 1][..|r|] == s[..|r|];
      forall k | |r| <= k < |s| - 1 ensures IsSpace(s[k]) {
        assert s[k] == s[..|s| - 1][k];
      }
    }
  }

  /** No whitespace at either end. */
  predicate Stripped(s: string)
  {
    s != [] ==> !IsSpace(s[0]) && !IsSpace(s[|s| - 1])
  }

  /** `s.strip()`. */
  function Strip(s: string): (r: string)
    ensures |r| <= |s|
    ensures Stripped(r)
  {
    var t := TrimStart(s);
    TrimStartSuffix(s);
    TrimEndPrefix(t);
    var r := TrimEnd(t);
    assert r != [] ==> r[0] == t[0];
    r
  }

  /** The stripped text is the slice left after dropping whitespace from both
      ends: `s[i..j]` with only whitespace before `i` and from `j` on. */
  lemma StripSlice(s: string) returns (i: nat, j: nat)
    ensures i <= j <= |s| && Strip(s) == s[i..j]
    ensures forall k :: 0 <= k < i ==> IsSpace(s[k])
    ensures forall k :: j <= k < |s| ==> IsSpace(s[k])
  {
    var t := TrimStart(s);
    TrimStartSuffix(s);
    TrimEndPrefix(t);
    var r := TrimEnd(t);
    i := |s| - |t|;
    j := i + |r|;
    assert r == t[..|r|];
    assert t[..|r|] == s[i..j];
    forall k | j <= k < |s| ensures IsSpace(s[k]) {
      assert s[k] == t[k - i];
    }
  }

  /** Stripping keeps only characters of the original text. */
  lemma StripChars(s: string)
    ensures forall c :: c in Strip(s) ==> c in s
  {
    var i, j := StripSlice(s);
    forall c | c in Strip(s) ensures c in s {
      var k :| 0 <= k < |Strip(s)| && Strip(s)[k] == c;
      assert s[i + k] == c;
    }
  }

  /** The stripped text is empty exactly when the text is all whitespace. */
  lemma StripEmpty(s: string)
    ensures Strip(s) == [] <==> forall k :: 0 <= k < |s| ==> IsSpace(s[k])
  {
    var i, j := StripSlice(s);
    if Strip(s) == [] {
      assert i == j;
    } else {
      assert !IsSpace(s[i]) by {
        assert s[i] == Strip(s)[0];
      }
    }
  }

  /** Stripping a text whose ends are not whitespace leaves it unchanged. */
  lemma StripKeeps(s: string)
    requires Stripped(s)
    ensures Strip(s) == s
  {
    var i, j := StripSlice(s);
    if s != [] {
      assert i == 0;
      assert j == |s|;
    }
  }

  lemma StripIdempotent(s: string)
    ensures Strip(Strip(s)) == Strip(s)
  {
    StripKeeps(Strip(s));
  }

  /** Nothing but whitespace. */
  predicate AllSpace(s: string)
  {
    forall k :: 0 <= k < |s| ==> IsSpace(s[k])
  }

  /** Leading whitespace makes no difference to `lstrip`. */
  lemma {:induction false} TrimStartSpaces(a: string, y: string)
    requires AllSpace(a)
    ensures TrimStart(a + y) == TrimStart(y)
    decreases |a|
  {
    if a == [] {
      assert a + y == y;
    } else {
      assert (a + y)[0] == a[0];
      assert (a + y)[1..] == a[1..] + y;
      TrimStartSpaces(a[1..], y);
    }
  }

  /** Trailing whitespace makes no difference to `rstrip`. */
  lemma {:induction false} TrimEndSpaces(y: string, b: string)
    requires AllSpace(b)
    ensures TrimEnd(y + b) == TrimEnd(y)
    decreases |b|
  {
    if b == [] {
      assert y + b == y;
    } else {
      assert (y + b)[|y + b| - 1] == b[|b| - 1];
      assert (y + b)[..|y + b| - 1] == y + b[..|b| - 1];
      TrimEndSpaces(y, b[..|b| - 1]);
    }
  }

  /** Whitespace around a text with clean ends is exactly what `strip()` removes. */
  lemma StripAround(a: string, m: string, b: string)
    requires AllSpace(a) && AllSpace(b) && Stripped(m)
    ensures Strip(a + m + b) == m
  {
    assert a + m + b == a + (m + b);
    TrimStartSpaces(a, m + b);
    if m == [] {
      assert m + b == b + [];
      TrimStartSpaces(b, []);
    } else {
      assert (m + b)[0] == m[0];
      assert TrimStart(m + b) == m + b;
      TrimEndSpaces(m, b);
    }
  }

  /** A word in normal form: stripped, with no upper-case ASCII letter. */
  predicate Normalized(w: string)
  {
    Stripped(w) && forall k :: 0 <= k < |w| ==> !('A' <= w[k] <= 'Z')
  }

  /** The normal form of a word: `text.strip().lower()`. */
  function Normalize(s: string): (r: string)
    ensures |r| <= |s|
    ensures Normalized(r)
  {
    var t := Strip(s);
    var r := ToLower(t);
    assert Stripped(r) by {
      if r != [] {
        assert r[0] == LowerChar(t[0]);
        assert r[|r| - 1] == LowerChar(t[|t| - 1]);
      }
    }
    r
  }

  /** A word already in normal form is its own normal form. */
  lemma NormalizeKeeps(w: string)
    requires Normalized(w)
    ensures Normalize(w) == w
  {
    StripKeeps(w);
    assert ToLower(w) == w;
  }

  /** Normalising an already normalised word changes nothing. */
  lemma NormalizeIdempotent(s: string)
    ensures Normalize(Normalize(s)) == Normalize(s)
  {
    NormalizeKeeps(Normalize(s));
  }

  /** Whitespace followed by whitespace is whitespace. */
  lemma AllSpaceAppend(x: string, y: string)
    requires AllSpace(x) && AllSpace(y)
    ensures AllSpace(x + y)
  {
    forall k | 0 <= k < |x + y| ensures IsSpace((x + y)[k]) {
      if k < |x| {
        assert (x + y)[k] == x[k];
      } else {
        assert (x + y)[k] == y[k - |x|];
      }
    }
  }

  /** A text is the whitespace `strip()` removes around what it keeps. */
  lemma StripParts(s: string) returns (a: string, b: string)
    ensures AllSpace(a) && AllSpace(b)
    ensures s == a + Strip(s) + b
  {
    var i, j := StripSlice(s);
    a, b := s[..i], s[j..];
    assert s == s[..i] + s[i..j] + s[j..];
  }

  /** Whitespace around a text does not change what `strip()` keeps. */
  lemma StripIgnoresSpace(p: string, s: string, q: string)
    requires AllSpace(p) && AllSpace(q)
    ensures Strip(p + s + q) == Strip(s)
  {
    var a, b := StripParts(s);
    var m := Strip(s);
    AllSpaceAppend(p, a);
    AllSpaceAppend(b, q);
    calc {
      p + s + q;
      p + (a + m + b) + q;
      { ConcatAssoc(p, a + m, b); ConcatAssoc(p, a, m); }
      (p + a) + m + b + q;
      { ConcatAssoc((p + a) + m, b, q); }
      (p + a) + m + (b + q);
    }
    StripAround(p + a, m, b + q);
  }

  /** Whitespace around a word does not change its key. */
  lemma NormalizeAround(p: string, s: string, q: string)
    requires AllSpace(p) && AllSpace(q)
    ensures Normalize(p + s + q) == Normalize(s)
  {
    StripIgnoresSpace(p, s, q);
  }

  /** Two characters with the same lower case are both whitespace or neither. */
  lemma LowerSpace(c: char, d: char)
    requires LowerChar(c) == LowerChar(d)
    ensures IsSpace(c) <==> IsSpace(d)
  {
  }

  /** Texts with whitespace in the same places strip to the same positions. */
  lemma StripSamePlaces(s: string, t: string) returns (i: nat, j: nat)
    requires |s| == |t|
    requires forall k :: 0 <= k < |s| ==> (IsSpace(s[k]) <==> IsSpace(t[k]))
    ensures i <= j <= |s| && Strip(s) == s[i..j] && Strip(t) == t[i..j]
  {
    i, j := StripSlice(s);
    var a, m, b := t[..i], t[i..j], t[j..];
    assert AllSpace(a) by {
      forall k | 0 <= k < |a| ensures IsSpace(a[k]) {
        assert a[k] == t[k];
      }
    }
    assert AllSpace(b) by {
      forall k | 0 <= k < |b| ensures IsSpace(b[k]) {
        assert b[k] == t[j + k];
      }
    }
    if i < j {
      assert s[i] == Strip(s)[0] && s[j - 1] == Strip(s)[j - i - 1];
      assert m[0] == t[i] && m[|m| - 1] == t[j - 1];
    }
    assert t == a + m + b;
    StripAround(a, m, b);
  }

  /** Slices that agree up to ASCII case lower-case to the same text. */
  lemma LowerSlices(s: string, t: string, i: nat, j: nat)
    requires |s| == |t| && i <= j <= |s|
    requires forall k :: 0 <= k < |s| ==> LowerChar(s[k]) == LowerChar(t[k])
    ensures ToLower(s[i..j]) == ToLower(t[i..j])
  {
    forall k | 0 <= k < j - i ensures ToLower(s[i..j])[k] == ToLower(t[i..j])[k] {
      assert s[i..j][k] == s[i + k] && t[i..j][k] == t[i + k];
    }
  }

  /** Searches are case-insensitive: two texts that agree letter by letter up
      to ASCII case have the same key. */
  lemma NormalizeCaseBlind(s: string, t: string)
    requires |s| == |t|
    requires forall k :: 0 <= k < |s| ==> LowerChar(s[k]) == LowerChar(t[k])
    ensures Normalize(s) == Normalize(t)
  {
    forall k | 0 <= k < |s| ensures IsSpace(s[k]) <==> IsSpace(t[k]) {
      LowerSpace(s[k], t[k]);
    }
    var i, j := StripSamePlaces(s, t);
    LowerSlices(s, t, i, j);
  }

  /** `sep.join(parts)`. */
  function Join(parts: seq<string>, sep: char): string
  {
    if |parts| == 0 then []
    else if |parts| == 1 then parts[0]
    else parts[0] + [sep] + Join(parts[1..], sep)
  }

  /** `s.split(sep)` for a one-character separator: always at least one piece,
      and no piece holds the separator. */
  function Split(s: string, sep: char): (parts: seq<string>)
    ensures |parts| >= 1
    ensures forall i :: 0 <= i < |parts| ==> sep !in parts[i]
    decreases |s|
  {
    if s == [] then [[]]
    else
      var rest := Split(s[1..], sep);
      if s[0] == sep then [[]] + rest
      else [[s[0]] + rest[0]] + rest[1..]
  }

  /** Joining the pieces of a split gives the text back. */
  lemma {:induction false} JoinSplit(s: string, sep: char)
    ensures Join(Split(s, sep), sep) == s
    decreases |s|
  {
    if s != [] {
      JoinSplit(s[1..], sep);
      var rest := Split(s[1..], sep);
      assert [s[0]] + s[1..] == s;
      if s[0] != sep {
        var parts := [[s[0]] + rest[0]] + rest[1..];
        assert parts[1..] == rest[1..];
        assert Join(parts, sep) == [s[0]] + Join(rest, sep);
      }
    }
  }

  /** A leading character other than the separator extends the first piece. */
  lemma SplitCons(c: char, s: string, sep: char)
    requires c != sep
    ensures Split([c] + s, sep) == [[c] + Split(s, sep)[0]] + Split(s, sep)[1..]
  {
    assert ([c] + s)[1..] == s;
  }

  /** A separator at the front closes an empty piece. */
  lemma SplitSep(s: string, sep: char)
    ensures Split([sep] + s, sep) == [[]] + Split(s, sep)
  {
    assert ([sep] + s)[1..] == s;
  }

  /** Splitting text that begins with a separator-free piece `p`. */
  lemma {:induction false} SplitAfterPiece(p: string, t: string, sep: char)
    requires sep !in p
    ensures Split(p + t, sep) == [p + Split(t, sep)[0]] + Split(t, sep)[1..]
    decreases |p|
  {
    var parts := Split(t, sep);
    if p == [] {
      assert p + t == t;
      assert p + parts[0] == parts[0];
      assert [parts[0]] + parts[1..] == parts;
    } else {
      SplitAfterPiece(p[1..], t, sep);
      assert p + t == [p[0]] + (p[1..] + t);
      SplitCons(p[0], p[1..] + t, sep);
      assert [p[0]] + (p[1..] + parts[0]) == p + parts[0];
    }
  }

  /** Splitting text that ends with a separator-free piece `q`: only the last
      piece grows. */
  lemma {:induction false} SplitBeforePiece(t: string, q: string, sep: char)
    requires sep !in q
    ensures |Split(t + q, sep)| == |Split(t, sep)|
    ensures Split(t + q, sep) ==
      Split(t, sep)[..|Split(t, sep)| - 1] + [Split(t, sep)[|Split(t, sep)| - 1] + q]
    decreases |t|
  {
    if t == [] {
      assert t + q == q + [];
      SplitAfterPiece(q, [], sep);
      assert [] + q == q;
    } else {
      var c, u := t[0], t[1..];
      SplitBeforePiece(u, q, sep);
      assert t == [c] + u;
      assert t + q == [c] + (u + q);
      if c == sep {
        SplitSep(u, sep);
        SplitSep(u + q, sep);
        InitAfterCons([], Split(u, sep), Split(u + q, sep), q);
      } else {
        SplitCons(c, u, sep);
        SplitCons(c, u + q, sep);
        InitAfterPiece(c, Split(u, sep), Split(u + q, sep), q);
      }
    }
  }

  /** Pieces `rq` are pieces `r` with `q` appended to the last one; so are
      they after a new first piece `x`. */
  lemma InitAfterCons<T>(x: seq<T>, r: seq<seq<T>>, rq: seq<seq<T>>, q: seq<T>)
    requires |r| >= 1 && rq == r[..|r| - 1] + [r[|r| - 1] + q]
    ensures [x] + rq == ([x] + r)[..|r|] + [([x] + r)[|r|] + q]
  {
    assert [x] + r[..|r| - 1] == ([x] + r)[..|r|];
  }

  /** As `InitAfterCons`, when `c` is prepended to the first piece. */
  lemma InitAfterPiece<T>(c: T, r: seq<seq<T>>, rq: seq<seq<T>>, q: seq<T>)
    requires |r| >= 1 && rq == r[..|r| - 1] + [r[|r| - 1] + q]
    ensures [[c] + rq[0]] + rq[1..] ==
      ([[c] + r[0]] + r[1..])[..|r| - 1] + [([[c] + r[0]] + r[1..])[|r| - 1] + q]
  {
    if |r| == 1 {
      ConcatAssoc([c], r[0], q);
    } else {
      assert rq[1..] == r[1..][..|r| - 2] + [r[|r| - 1] + q];
      assert [[c] + r[0]] + r[1..][..|r| - 2] == ([[c] + r[0]] + r[1..])[..|r| - 1];
    }
  }

  /** Joining separator-free pieces and splitting again gives the pieces back. */
  lemma {:induction false} SplitJoin(parts: seq<string>, sep: char)
    requires |parts| >= 1
    requires forall i :: 0 <= i < |parts| ==> sep !in parts[i]
    ensures Split(Join(parts, sep), sep) == parts
    decreases |parts|
  {
    if |parts| == 1 {
      SplitAfterPiece(parts[0], [], sep);
      assert parts[0] + [] == parts[0];
    } else {
      var tail := Join(parts[1..], sep);
      SplitJoin(parts[1..], sep);
      assert Join(parts, sep) == parts[0] + ([sep] + tail);
      SplitAfterPiece(parts[0], [sep] + tail, sep);
      assert ([sep] + tail)[1..] == tail;
      assert Split([sep] + tail, sep) == [[]] + parts[1..];
      assert parts[0] + [] == parts[0];
      assert [parts[0]] + parts[1..] == parts;
    }
  }

  /** The examples kept from a list of lines: each line stripped, blank ones
      dropped, the others in their original order. */
  function CleanLines(lines: seq<string>): (r: seq<string>)
    ensures |r| <= |lines|
    ensures forall i :: 0 <= i < |r| ==> r[i] != [] && Stripped(r[i])
  {
    if lines == [] then []
    else
      var e := Strip(lines[0]);
      var rest := CleanLines(lines[1..]);
      if e == [] then rest else [e] + rest
  }

  /** One line gives its stripped text, or nothing when it is blank. */
  lemma CleanLinesSingle(line: string)
    ensures CleanLines([line]) == if Strip(line) == [] then [] else [Strip(line)]
  {
    assert [line][1..] == [];
  }

  /** Concatenation is associative. */
  lemma ConcatAssoc<T>(x: seq<T>, y: seq<T>, z: seq<T>)
    ensures x + (y + z) == (x + y) + z
  {
  }

  /** The first line contributes its stripped text, unless it is blank. */
  lemma CleanLinesHead(lines: seq<string>)
    requires lines != []
    ensures CleanLines(lines) == CleanLines([lines[0]]) + CleanLines(lines[1..])
  {
    assert [lines[0]][1..] == [];
  }

  /** Lines are cleaned one by one: the kept examples of two blocks of lines
      are those of the first block followed by those of the second. */
  lemma {:induction false} CleanLinesAppend(a: seq<string>, b: seq<string>)
    ensures CleanLines(a + b) == CleanLines(a) + CleanLines(b)
    decreases |a|
  {
    if a == [] {
      assert a + b == b;
    } else {
      var ab := a + b;
      assert ab[0] == a[0] && ab[1..] == a[1..] + b;
      CleanLinesHead(a);
      CleanLinesHead(ab);
      CleanLinesAppend(a[1..], b);
      ConcatAssoc(CleanLines([a[0]]), CleanLines(a[1..]), CleanLines(b));
    }
  }

  /** Cleaning lines that hold no line break gives examples that hold none. */
  lemma {:induction false} CleanLinesOneLine(lines: seq<string>)
    requires forall i :: 0 <= i < |lines| ==> '\n' !in lines[i]
    ensures forall i :: 0 <= i < |CleanLines(lines)| ==> '\n' !in CleanLines(lines)[i]
  {
    if lines != [] {
      CleanLinesOneLine(lines[1..]);
      StripChars(lines[0]);
    }
  }

  /** The examples an administrator typed, one per line (`receive_examples`). */
  function ParseExamples(text: string): (examples: seq<string>)
    ensures ExampleLines(examples)
  {
    var lines := Split(Strip(text), '\n');
    CleanLinesOneLine(lines);
    CleanLines(lines)
  }

  /** Well-formed examples: non-empty, already stripped, one line each. */
  predicate ExampleLines(examples: seq<string>)
  {
    forall i :: 0 <= i < |examples| ==>
      examples[i] != [] && Stripped(examples[i]) && '\n' !in examples[i]
  }

  lemma {:induction false} CleanLinesKeeps(lines: seq<string>)
    requires ExampleLines(lines)
    ensures CleanLines(lines) == lines
  {
    if lines != [] {
      CleanLinesKeeps(lines[1..]);
      StripKeeps(lines[0]);
      assert [lines[0]] + lines[1..] == lines;
    }
  }

  /** The first character of a join of non-empty pieces is that of the first piece. */
  lemma {:induction false} JoinEnds(parts: seq<string>, sep: char)
    requires |parts| >= 1 && forall i :: 0 <= i < |parts| ==> parts[i] != []
    ensures Join(parts, sep) != []
    ensures Join(parts, sep)[0] == parts[0][0]
    ensures Join(parts, sep)[|Join(parts, sep)| - 1] == parts[|parts| - 1][|parts[|parts| - 1]| - 1]
    decreases |parts|
  {
    if |parts| > 1 {
      JoinEnds(parts[1..], sep);
    }
  }

  /** Writing examples one per line and reading them back gives the same list. */
  lemma ParseExamplesRoundTrip(examples: seq<string>)
    requires ExampleLines(examples)
    ensures ParseExamples(Join(examples, '\n')) == examples
  {
    var text := Join(examples, '\n');
    if examples == [] {
      StripKeeps(text);
    } else {
      JoinEnds(examples, '\n');
      StripKeeps(text);
      SplitJoin(examples, '\n');
      CleanLinesKeeps(examples);
    }
  }

  /** A line holding a visible character yields at least one example. */
  lemma {:induction false} CleanLinesNonEmpty(lines: seq<string>, i: nat, k: nat)
    requires i < |lines| && k < |lines[i]| && !IsSpace(lines[i][k])
    ensures CleanLines(lines) != []
    decreases i
  {
    StripEmpty(lines[0]);
    if Strip(lines[0]) == [] {
      if i == 0 {
        assert false;
      } else {
        CleanLinesNonEmpty(lines[1..], i - 1, k);
      }
    }
  }

  /** The examples are empty exactly when the text holds nothing but whitespace,
      so an all-blank reply stores an entry with no examples. */
  lemma ParseExamplesEmpty(text: string)
    ensures ParseExamples(text) == [] <==> forall k :: 0 <= k < |text| ==> IsSpace(text[k])
  {
    var t := Strip(text);
    StripEmpty(text);
    if forall k :: 0 <= k < |text| ==> IsSpace(text[k]) {
      assert t == [];
      assert Split(t, '\n') == [[]];
    } else {
      var lines := Split(t, '\n');
      JoinSplit(t, '\n');
      assert t != [] && !IsSpace(t[0]);
      assert lines[0] != [];
      assert lines[0][0] == t[0] by {
        if |lines| == 1 {
          assert t == lines[0];
        } else {
          assert t == lines[0] + ['\n'] + Join(lines[1..], '\n');
        }
      }
      CleanLinesNonEmpty(lines, 0, 0);
    }
  }

  /** The words of a query (`search_words`): the comma-separated pieces of the
      stripped text, each normalised. Repeated and empty pieces are kept. */
  function Tokens(text: string): (words: seq<string>)
    ensures |words| >= 1
    ensures forall i :: 0 <= i < |words| ==> Normalized(words[i])
  {
    var pieces := Split(Strip(text), ',');
    var words := seq(|pieces|, i requires 0 <= i < |pieces| => Normalize(pieces[i]));
    words
  }

  /** A query without a comma asks for one word, normalised exactly as a word
      typed into the add dialogue is. */
  lemma SingleWordQuery(text: string)
    requires ',' !in text
    ensures Tokens(text) == [Normalize(text)]
  {
    var t := Strip(text);
    StripChars(text);
    assert ',' !in t;
    assert Join([t], ',') == t;
    SplitJoin([t], ',');
    var pieces := Split(t, ',');
    assert pieces == [t];
    StripIdempotent(text);
    assert Normalize(t) == Normalize(text);
    assert Tokens(text) == [Normalize(pieces[0])];
  }

  /** A normalised word without a comma, sent as a query, asks for exactly
      itself: a stored key of that kind is found by typing it. */
  lemma StoredKeyFound(w: string)
    requires Normalized(w) && ',' !in w
    ensures Tokens(w) == [w]
  {
    SingleWordQuery(w);
    NormalizeKeeps(w);
  }

  /** Normalising text without a comma cannot produce one. */
  lemma NormalizeNoComma(p: string)
    requires ',' !in p
    ensures ',' !in Normalize(p)
  {
    var t := Strip(p);
    StripChars(p);
    ToLowerChars(t);
    forall k | 0 <= k < |t| ensures ToLower(t)[k] != ',' {
      assert t[k] in t;
    }
  }

  /** No query word holds a comma, so a word with a comma, which the add
      dialogue accepts, is never found by a search. */
  lemma CommaWordUnsearchable(text: string, w: string)
    requires ',' in w
    ensures w !in Tokens(text)
  {
    var pieces := Split(Strip(text), ',');
    forall i | 0 <= i < |Tokens(text)| ensures Tokens(text)[i] != w {
      NormalizeNoComma(pieces[i]);
    }
  }

  /** Separator-joined stripped pieces are stripped when the separator is not
      whitespace. */
  lemma {:induction false} JoinStripped(parts: seq<string>, sep: char)
    requires !IsSpace(sep)
    requires forall i :: 0 <= i < |parts| ==> Stripped(parts[i])
    ensures Stripped(Join(parts, sep))
    decreases |parts|
  {
    if |parts| > 1 {
      JoinStripped(parts[1..], sep);
      var head := parts[0] + [sep];
      var tail := Join(parts[1..], sep);
      assert Join(parts, sep) == head + tail;
      assert (head + tail)[0] == head[0];
      if tail != [] {
        assert (head + tail)[|head + tail| - 1] == tail[|tail| - 1];
      }
    }
  }

  /** Whitespace holds no comma. */
  lemma SpaceNoComma(s: string)
    requires AllSpace(s)
    ensures ',' !in s
  {
    forall k | 0 <= k < |s| ensures s[k] != ',' {
      assert IsSpace(s[k]);
    }
  }

  /** Separator-free text around `m` only extends the first and the last
      piece of its split. */
  lemma SplitAround(a: string, m: string, b: string, sep: char)
    requires sep !in a && sep !in b
    ensures |Split(a + m + b, sep)| == |Split(m, sep)|
    ensures |Split(m, sep)| == 1 ==> Split(a + m + b, sep) == [a + Split(m, sep)[0] + b]
    ensures |Split(m, sep)| > 1 ==>
      var n, all, pieces := |Split(m, sep)|, Split(a + m + b, sep), Split(m, sep);
      && all[0] == a + pieces[0]
      && all[n - 1] == pieces[n - 1] + b
      && forall k :: 0 < k < n - 1 ==> all[k] == pieces[k]
  {
    var pieces := Split(m, sep);
    var n := |pieces|;
    SplitBeforePiece(m, b, sep);
    assert a + m + b == a + (m + b);
    SplitAfterPiece(a, m + b, sep);
    if n == 1 {
      assert a + (pieces[0] + b) == a + pieces[0] + b;
    }
  }

  /** The words of a query are its comma-separated pieces, each normalised:
      stripping the whole query first changes none of them. */
  lemma TokensOfText(text: string)
    ensures |Tokens(text)| == |Split(text, ',')|
    ensures forall i :: 0 <= i < |Tokens(text)| ==> Tokens(text)[i] == Normalize(Split(text, ',')[i])
  {
    var a, b := StripParts(text);
    var m := Strip(text);
    SpaceNoComma(a);
    SpaceNoComma(b);
    SplitAround(a, m, b, ',');
    var pieces := Split(m, ',');
    var all := Split(text, ',');
    var n := |pieces|;
    forall k | 0 <= k < n ensures Normalize(pieces[k]) == Normalize(all[k]) {
      if n == 1 {
        NormalizeAround(a, pieces[0], b);
      } else if k == 0 {
        assert a + pieces[0] == a + pieces[0] + [];
        NormalizeAround(a, pieces[0], []);
      } else if k == n - 1 {
        assert pieces[k] + b == [] + pieces[k] + b;
        NormalizeAround([], pieces[k], b);
      }
    }
  }

  /** A query written as comma-separated pieces asks for each piece's key, in
      order, repeated and empty ones included. */
  lemma TokensOfPieces(pieces: seq<string>)
    requires |pieces| >= 1
    requires forall i :: 0 <= i < |pieces| ==> ',' !in pieces[i]
    ensures Tokens(Join(pieces, ',')) == seq(|pieces|, i requires 0 <= i < |pieces| => Normalize(pieces[i]))
  {
    TokensOfText(Join(pieces, ','));
    SplitJoin(pieces, ',');
  }

  /** A query written as normalised, comma-free words separated by commas is
      read back as exactly those words, repeated and empty ones included. */
  lemma TokensRoundTrip(words: seq<string>)
    requires |words| >= 1
    requires forall i :: 0 <= i < |words| ==> Normalized(words[i]) && ',' !in words[i]
    ensures Tokens(Join(words, ',')) == words
  {
    var text := Join(words, ',');
    JoinStripped(words, ',');
    StripKeeps(text);
    SplitJoin(words, ',');
    forall i | 0 <= i < |words| ensures Normalize(words[i]) == words[i] {
      NormalizeKeeps(words[i]);
    }
  }

  /** Python's `<` on strings: code-point lexicographic order. */
  predicate Below(a: string, b: string)
  {
    if a == [] then b != []
    else if b == [] then false
    else if a[0] != b[0] then a[0] < b[0]
    else Below(a[1..], b[1..])
  }

  lemma {:induction false} BelowIrreflexive(a: string)
    ensures !Below(a, a)
  {
    if a != [] {
      BelowIrreflexive(a[1..]);
    }
  }

  lemma {:induction false} BelowTransitive(a: string, b: string, c: string)
    requires Below(a, b) && Below(b, c)
    ensures Below(a, c)
  {
    if a != [] && a[0] == b[0] && b[0] == c[0] {
      BelowTransitive(a[1..], b[1..], c[1..]);
    }
  }

  lemma {:induction false} BelowTotal(a: string, b: string)
    ensures a == b || Below(a, b) || Below(b, a)
  {
    if a != [] && b != [] && a[0] == b[0] {
      BelowTotal(a[1..], b[1..]);
      if a[1..] == b[1..] {
        assert a == [a[0]] + a[1..] && b == [b[0]] + b[1..];
      }
    }
  }

  lemma BelowAsymmetric(a: string, b: string)
    ensures !(Below(a, b) && Below(b, a))
  {
    if Below(a, b) && Below(b, a) {
      BelowTransitive(a, b, a);
      BelowIrreflexive(a);
    }
  }
}
