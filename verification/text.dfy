/** The pieces of Rust's string API that the four days use, stated over
    `seq<char>`: splitting on a pattern (`str::split`), splitting on whitespace
    (`str::split_whitespace`), line splitting (`str::lines`), character-class
    tests and decimal integer parsing (`str::parse::<i16>` / `::<usize>`).
 */
module Text {

  datatype Option<+T> = None | Some(value: T)

  datatype Result<+T, +E> = Ok(value: T) | Err(error: E)

  /** Applies `f` to each element in order; the first error stops the walk
      and is the result. */
  function MapResults<A, R, E>(xs: seq<A>, f: A -> Result<R, E>): (r: Result<seq<R>, E>)
    ensures r.Ok? <==> forall i :: 0 <= i < |xs| ==> f(xs[i]).Ok?
    ensures r.Ok? ==> |r.value| == |xs|
    ensures r.Ok? ==> forall i :: 0 <= i < |xs| ==> f(xs[i]) == Ok(r.value[i])
    ensures r.Err? ==> exists i :: 0 <= i < |xs| && f(xs[i]) == Err(r.error)
                                   && forall j :: 0 <= j < i ==> f(xs[j]).Ok?
  {
    if |xs| == 0 then Ok([])
    else
      match f(xs[0])
      case Err(e) => Err(e)
      case Ok(first) =>
        match MapResults(xs[1..], f)
        case Err(e) =>
          assert forall i :: 1 <= i < |xs| ==> xs[i] == xs[1..][i - 1];
          Err(e)
        case Ok(rest) =>
          assert forall i :: 1 <= i < |xs| ==> xs[i] == xs[1..][i - 1];
          Ok([first] + rest)
  }

  /** Mapping two runs that both succeed succeeds on the two runs together,
      with the results one after the other. */
  lemma MapResultsAppend<A, R, E>(xs: seq<A>, ys: seq<A>, f: A -> Result<R, E>)
    requires MapResults(xs, f).Ok? && MapResults(ys, f).Ok?
    ensures MapResults(xs + ys, f) == Ok(MapResults(xs, f).value + MapResults(ys, f).value)
  {
    var zs := xs + ys;
    var expected := MapResults(xs, f).value + MapResults(ys, f).value;
    forall i | 0 <= i < |zs|
      ensures f(zs[i]) == Ok(expected[i])
    {
      if i < |xs| {
        assert zs[i] == xs[i];
      } else {
        assert zs[i] == ys[i - |xs|];
      }
    }
    var r := MapResults(zs, f);
    assert r.Ok? && |r.value| == |expected|;
    forall i | 0 <= i < |zs|
      ensures r.value[i] == expected[i]
    {
      assert Ok(r.value[i]) == f(zs[i]);
    }
    assert r.value == expected;
  }

  //----------------------------------------------------------------------
  // Splitting on a string pattern: `str::split(&str)`
  //----------------------------------------------------------------------

  /** `pattern` occurs in `s` starting at index `i`. */
  predicate OccursAt(s: string, pattern: string, i: nat)
  {
    i + |pattern| <= |s| && s[i..i + |pattern|] == pattern
  }

  predicate Contains(s: string, pattern: string)
  {
    exists i: nat :: i <= |s| && OccursAt(s, pattern, i)
  }

  /** The leftmost occurrence of `pattern` in `s` at or after `from`. */
  function FindFrom(s: string, pattern: string, from: nat): (r: Option<nat>)
    requires |pattern| > 0
    ensures r.Some? ==> from <= r.value && OccursAt(s, pattern, r.value)
    ensures r.Some? ==> forall j: nat :: from <= j < r.value ==> !OccursAt(s, pattern, j)
    ensures r.None? <==> forall j: nat :: from <= j ==> !OccursAt(s, pattern, j)
    decreases |s| - from
  {
    if from + |pattern| > |s| then None
    else if s[from..from + |pattern|] == pattern then
      assert OccursAt(s, pattern, from);
      Some(from)
    else FindFrom(s, pattern, from + 1)
  }

  /** A prefix that ends before the first occurrence of `pattern` does not contain it. */
  lemma PrefixAvoids(s: string, pattern: string, i: nat)
    requires |pattern| > 0 && i <= |s|
    requires forall j: nat :: j < i ==> !OccursAt(s, pattern, j)
    ensures !Contains(s[..i], pattern)
  {
    forall j: nat | OccursAt(s[..i], pattern, j)
      ensures false
    {
      assert s[..i][j..j + |pattern|] == s[j..j + |pattern|];
      assert OccursAt(s, pattern, j);
    }
  }

  /** For a one-character pattern, containment is membership. */
  lemma ContainsChar(s: string, c: char)
    ensures Contains(s, [c]) <==> c in s
  {
    if c in s {
      var i :| 0 <= i < |s| && s[i] == c;
      assert OccursAt(s, [c], i);
    }
    if Contains(s, [c]) {
      var i: nat :| i <= |s| && OccursAt(s, [c], i);
      assert s[i] == s[i..i + 1][0];
    }
  }

  /** Inverse of `Split`: the parts glued back together with the separator. */
  function Join(parts: seq<string>, separator: string): string
  {
    if |parts| == 0 then ""
    else if |parts| == 1 then parts[0]
    else parts[0] + separator + Join(parts[1..], separator)
  }

  /** `s.split(separator)`: the pieces between the leftmost, non-overlapping
      occurrences of `separator`, in order; empty pieces are kept. */
  function Split(s: string, separator: string): (parts: seq<string>)
    requires |separator| > 0
    ensures |parts| >= 1
    ensures forall k :: 0 <= k < |parts| ==> !Contains(parts[k], separator)
    ensures Join(parts, separator) == s
    decreases |s|
  {
    match FindFrom(s, separator, 0)
    case None => [s]
    case Some(i) =>
      PrefixAvoids(s, separator, i);
      var rest := Split(s[i + |separator|..], separator);
      assert s == s[..i] + separator + s[i + |separator|..];
      [s[..i]] + rest
  }

  /** A string free of the separator is a single piece. */
  lemma SplitWithout(s: string, separator: string)
    requires |separator| > 0 && !Contains(s, separator)
    ensures Split(s, separator) == [s]
  {
  }

  /** Splitting `a + separator + b`, where `a + separator` holds its first
      occurrence of the separator only at its end, peels off `a`. */
  lemma SplitCons(a: string, separator: string, b: string)
    requires |separator| > 0
    requires forall j: nat :: j < |a| ==> !OccursAt(a + separator, separator, j)
    ensures Split(a + separator + b, separator) == [a] + Split(b, separator)
  {
    var s := a + separator + b;
    assert OccursAt(s, separator, |a|) by {
      assert s[|a|..|a| + |separator|] == separator;
    }
    forall j: nat | j < |a|
      ensures !OccursAt(s, separator, j)
    {
      assert !OccursAt(a + separator, separator, j);
      assert (a + separator)[j..j + |separator|] == s[j..j + |separator|];
    }
    var r := FindFrom(s, separator, 0);
    assert r == Some(|a|);
    assert s[..|a|] == a;
    assert s[|a| + |separator|..] == b;
  }

  /** Pieces free of the separator's first character, joined by the
      separator, split back into the same pieces. */
  lemma {:induction false} SplitOfJoin(parts: seq<string>, separator: string)
    requires |separator| > 0 && |parts| >= 1
    requires forall k :: 0 <= k < |parts| ==> separator[0] !in parts[k]
    ensures Split(Join(parts, separator), separator) == parts
    decreases |parts|
  {
    var a := parts[0];
    if |parts| == 1 {
      SplitWithout(a, separator);
    } else {
      SplitCons(a, separator, Join(parts[1..], separator));
      SplitOfJoin(parts[1..], separator);
      assert parts == [a] + parts[1..];
    }
  }

  /** In `a + separator`, the first occurrence of the separator is the one at
      the end. */
  predicate FirstAtEnd(a: string, separator: string)
  {
    forall j: nat :: j < |a| ==> !OccursAt(a + separator, separator, j)
  }

  /** Pieces joined by the separator split back into the same pieces when
      the first occurrence after each piece is the separator that follows
      it, and the last piece holds no separator at all. */
  lemma {:induction false} SplitOfJoinAt(parts: seq<string>, separator: string)
    requires |separator| > 0 && |parts| >= 1
    requires forall k :: 0 <= k < |parts| - 1 ==> FirstAtEnd(parts[k], separator)
    requires !Contains(parts[|parts| - 1], separator)
    ensures Split(Join(parts, separator), separator) == parts
    decreases |parts|
  {
    var a := parts[0];
    if |parts| == 1 {
      SplitWithout(a, separator);
    } else {
      var tail := parts[1..];
      SplitOfJoinAt(tail, separator);
      SplitJoinStep(parts, separator);
    }
  }

  /** One step of `SplitOfJoinAt`: the first piece comes off, and the rest
      splits as the join of the other pieces. */
  lemma SplitJoinStep(parts: seq<string>, separator: string)
    requires |separator| > 0 && |parts| >= 2 && FirstAtEnd(parts[0], separator)
    ensures Split(Join(parts, separator), separator) ==
              [parts[0]] + Split(Join(parts[1..], separator), separator)
  {
    SplitCons(parts[0], separator, Join(parts[1..], separator));
  }

  /** Text appended to a join belongs to its last piece. */
  lemma {:induction false} JoinAppendLast(parts: seq<string>, separator: string, t: string)
    requires |parts| >= 1
    ensures Join(parts, separator) + t ==
              Join(parts[..|parts| - 1] + [parts[|parts| - 1] + t], separator)
    decreases |parts|
  {
    if |parts| > 1 {
      var n := |parts|;
      var tail := parts[1..];
      JoinAppendLast(tail, separator, t);
      var q := parts[..n - 1] + [parts[n - 1] + t];
      assert q[1..] == tail[..|tail| - 1] + [tail[|tail| - 1] + t];
      assert q[0] == parts[0];
      assert Join(parts, separator) + t == parts[0] + separator + (Join(tail, separator) + t);
    }
  }

  /** A character found neither in the parts nor in the separator is not in
      their join. */
  lemma {:induction false} JoinAvoids(parts: seq<string>, separator: string, c: char)
    requires c !in separator
    requires forall k :: 0 <= k < |parts| ==> c !in parts[k]
    ensures c !in Join(parts, separator)
    decreases |parts|
  {
    if |parts| > 1 {
      JoinAvoids(parts[1..], separator, c);
    }
  }

  //----------------------------------------------------------------------
  // Splitting on any of a set of characters: `str::split(|c| ...)`
  //----------------------------------------------------------------------

  predicate Avoids(s: string, separators: set<char>)
  {
    forall i :: 0 <= i < |s| ==> s[i] !in separators
  }

  /** Length of the longest prefix of `s` holding no separator. */
  function PieceLength(s: string, separators: set<char>): (n: nat)
    ensures n <= |s|
    ensures Avoids(s[..n], separators)
    ensures n < |s| ==> s[n] in separators
  {
    if |s| == 0 || s[0] in separators then 0
    else
      var n := 1 + PieceLength(s[1..], separators);
      assert forall i :: 1 <= i < n ==> s[..n][i] == s[1..][..n - 1][i - 1];
      n
  }

  /** `s.split(|c| c in separators)`: every separator character ends a piece,
      so adjacent separators yield an empty piece. */
  function SplitAny(s: string, separators: set<char>): (parts: seq<string>)
    ensures |parts| >= 1
    ensures forall k :: 0 <= k < |parts| ==> Avoids(parts[k], separators)
    decreases |s|
  {
    var n := PieceLength(s, separators);
    if n == |s| then [s]
    else [s[..n]] + SplitAny(s[n + 1..], separators)
  }

  /** The first piece of `a + [c] + b`, for a separator `c` and a separator-free
      `a`, is `a`. */
  lemma SplitAnyCons(a: string, c: char, b: string, separators: set<char>)
    requires Avoids(a, separators) && c in separators
    ensures SplitAny(a + [c] + b, separators) == [a] + SplitAny(b, separators)
  {
    var s := a + [c] + b;
    PieceLengthOfAvoiding(a, [c] + b, separators);
    assert s == a + ([c] + b);
    assert s[..|a|] == a;
    assert s[|a| + 1..] == b;
  }

  /** A separator-free string is one piece. */
  lemma SplitAnyWithout(a: string, separators: set<char>)
    requires Avoids(a, separators)
    ensures SplitAny(a, separators) == [a]
  {
    PieceLengthOfAvoiding(a, [], separators);
    assert a + [] == a;
  }

  lemma {:induction false} PieceLengthOfAvoiding(a: string, b: string, separators: set<char>)
    requires Avoids(a, separators)
    requires |b| > 0 ==> b[0] in separators
    ensures PieceLength(a + b, separators) == |a|
    decreases |a|
  {
    if |a| > 0 {
      assert (a + b)[1..] == a[1..] + b;
      PieceLengthOfAvoiding(a[1..], b, separators);
    } else {
      assert a + b == b;
    }
  }

  //----------------------------------------------------------------------
  // Whitespace: `char::is_whitespace` and `str::split_whitespace`
  //----------------------------------------------------------------------

  /** The Unicode White_Space property, as `char::is_whitespace` tests it. */
  predicate IsWhitespace(c: char)
  {
    var n := c as int;
    || (0x09 <= n <= 0x0D) || n == 0x20 || n == 0x85 || n == 0xA0 || n == 0x1680
    || (0x2000 <= n <= 0x200A) || n == 0x2028 || n == 0x2029 || n == 0x202F
    || n == 0x205F || n == 0x3000
  }

  /** A non-empty run of non-whitespace characters. */
  predicate IsWord(w: string)
  {
    |w| > 0 && forall i :: 0 <= i < |w| ==> !IsWhitespace(w[i])
  }

  /** Length of the leading run of non-whitespace characters. */
  function WordLength(s: string): (n: nat)
    ensures n <= |s|
    ensures forall i :: 0 <= i < n ==> !IsWhitespace(s[i])
    ensures n < |s| ==> IsWhitespace(s[n])
  {
    if |s| == 0 || IsWhitespace(s[0]) then 0 else 1 + WordLength(s[1..])
  }

  /** `s.split_whitespace()`: the maximal runs of non-whitespace characters. */
  function Words(s: string): (words: seq<string>)
    ensures forall k :: 0 <= k < |words| ==> IsWord(words[k])
    decreases |s|
  {
    if |s| == 0 then []
    else if IsWhitespace(s[0]) then Words(s[1..])
    else
      var n := WordLength(s);
      [s[..n]] + Words(s[n..])
  }

  /** The characters of `s` that are not whitespace, in order. */
  function Visible(s: string): string
  {
    if |s| == 0 then ""
    else if IsWhitespace(s[0]) then Visible(s[1..])
    else [s[0]] + Visible(s[1..])
  }

  function Concat(words: seq<string>): string
  {
    if |words| == 0 then "" else words[0] + Concat(words[1..])
  }

  lemma {:induction false} VisibleAppend(a: string, b: string)
    ensures Visible(a + b) == Visible(a) + Visible(b)
    decreases |a|
  {
    if |a| > 0 {
      assert (a + b)[1..] == a[1..] + b;
      VisibleAppend(a[1..], b);
    } else {
      assert a + b == b;
    }
  }

  lemma {:induction false} VisibleOfWord(w: string)
    requires forall i :: 0 <= i < |w| ==> !IsWhitespace(w[i])
    ensures Visible(w) == w
    decreases |w|
  {
    if |w| > 0 {
      VisibleOfWord(w[1..]);
      assert w == [w[0]] + w[1..];
    }
  }

  /** `split_whitespace` loses exactly the whitespace: its words, concatenated,
      are the non-whitespace characters of the input. */
  lemma {:induction false} WordsCoverText(s: string)
    ensures Concat(Words(s)) == Visible(s)
    decreases |s|
  {
    if |s| > 0 {
      if IsWhitespace(s[0]) {
        WordsCoverText(s[1..]);
      } else {
        var n := WordLength(s);
        WordsCoverText(s[n..]);
        assert s == s[..n] + s[n..];
        VisibleAppend(s[..n], s[n..]);
        VisibleOfWord(s[..n]);
        var words := [s[..n]] + Words(s[n..]);
        assert words[1..] == Words(s[n..]);
      }
    }
  }

  /** A word followed by a whitespace character is the first word. */
  lemma WordsCons(w: string, c: char, rest: string)
    requires IsWord(w) && IsWhitespace(c)
    ensures Words(w + [c] + rest) == [w] + Words([c] + rest)
  {
    var s := w + [c] + rest;
    WordLengthOfWord(w, [c] + rest);
    assert s == w + ([c] + rest);
    assert s[..|w|] == w;
    assert s[|w|..] == [c] + rest;
  }

  lemma {:induction false} WordLengthOfWord(w: string, rest: string)
    requires forall i :: 0 <= i < |w| ==> !IsWhitespace(w[i])
    requires |rest| > 0 ==> IsWhitespace(rest[0])
    ensures WordLength(w + rest) == |w|
    decreases |w|
  {
    if |w| > 0 {
      assert (w + rest)[1..] == w[1..] + rest;
      WordLengthOfWord(w[1..], rest);
    } else {
      assert w + rest == rest;
    }
  }

  /** Words joined by one whitespace character split back into the same words. */
  lemma {:induction false} WordsOfJoin(words: seq<string>, c: char)
    requires forall k :: 0 <= k < |words| ==> IsWord(words[k])
    requires IsWhitespace(c)
    ensures Words(Join(words, [c])) == words
    decreases |words|
  {
    if |words| == 1 {
      WordLengthOfWord(words[0], []);
      assert words[0] + [] == words[0];
      assert words[0][..|words[0]|] == words[0];
      assert words[0][|words[0]|..] == [];
    } else if |words| > 1 {
      var rest := Join(words[1..], [c]);
      WordsCons(words[0], c, rest);
      assert words[0] + [c] + rest == Join(words, [c]);
      assert ([c] + rest)[1..] == rest;
      WordsOfJoin(words[1..], c);
      assert words == [words[0]] + words[1..];
    }
  }

  /** `split_whitespace` cuts at every whitespace character: the words on
      either side of one are the words of each side. */
  lemma {:induction false} WordsAroundSpace(a: string, c: char, b: string)
    requires IsWhitespace(c)
    ensures Words(a + [c] + b) == Words(a) + Words(b)
    decreases |a|
  {
    var s := a + [c] + b;
    if |a| == 0 {
      assert s[1..] == b;
    } else if IsWhitespace(a[0]) {
      assert s[1..] == a[1..] + [c] + b;
      WordsAroundSpace(a[1..], c, b);
    } else {
      var n := WordLength(a);
      var rest := a[n..] + [c] + b;
      assert rest[0] == if n < |a| then a[n] else c;
      WordLengthOfWord(a[..n], rest);
      assert s == a[..n] + rest;
      assert s[..n] == a[..n];
      assert s[n..] == rest;
      WordsAroundSpace(a[n..], c, b);
    }
  }

  //----------------------------------------------------------------------
  // Lines: `str::lines`
  //----------------------------------------------------------------------

  /** A line as `lines` yields it: a `\r` right before the `\n` is dropped. */
  function StripCarriageReturn(line: string): string
  {
    if |line| > 0 && line[|line| - 1] == '\r' then line[..|line| - 1] else line
  }

  /** `s.lines()`: pieces ended by `\n` (or `\r\n`); a final line ending is
      optional and does not start an extra empty line. A bare `\r` that ends
      an unterminated last line is kept, as current Rust does; the Rust
      releases of 2020 dropped it too. */
  function Lines(s: string): (lines: seq<string>)
    ensures forall k :: 0 <= k < |lines| ==> '\n' !in lines[k]
    decreases |s|
  {
    if |s| == 0 then []
    else
      var n := PieceLength(s, {'\n'});
      if n == |s| then
        assert forall i :: 0 <= i < |s| ==> s[..n][i] == s[i];
        [s]
      else
        var line := s[..n];
        assert '\n' !in StripCarriageReturn(line) by {
          assert forall i :: 0 <= i < |StripCarriageReturn(line)| ==> StripCarriageReturn(line)[i] == line[i];
        }
        [StripCarriageReturn(line)] + Lines(s[n + 1..])
  }

  /** No line of `s` is empty: `s` neither starts nor ends with a line feed
      and never holds two in a row. */
  predicate NoEmptyLine(s: string)
  {
    forall i :: 0 <= i < |s| && s[i] == '\n' ==> 0 < i < |s| - 1 && s[i + 1] != '\n'
  }

  /** Non-empty lines without line feeds, joined by line feeds, leave no line
      empty. */
  lemma {:induction false} JoinLinesNoEmptyLine(lines: seq<string>)
    requires forall k :: 0 <= k < |lines| ==> |lines[k]| > 0 && '\n' !in lines[k]
    ensures NoEmptyLine(Join(lines, "\n"))
    ensures |lines| > 0 ==> |Join(lines, "\n")| > 0 && Join(lines, "\n")[0] != '\n'
    decreases |lines|
  {
    if |lines| > 1 {
      var l := lines[0];
      var rest := Join(lines[1..], "\n");
      JoinLinesNoEmptyLine(lines[1..]);
      var s := l + "\n" + rest;
      assert forall i :: 0 <= i < |l| ==> s[i] == l[i];
      assert s[|l|] == '\n';
      assert forall i :: |l| < i < |s| ==> s[i] == rest[i - |l| - 1];
    }
  }

  /** Before an empty line, a text without empty lines holds no blank line
      of its own: the first `"\n\n"` is the one that follows it. */
  lemma NoEmptyLineBeforeBlank(a: string)
    requires NoEmptyLine(a)
    ensures FirstAtEnd(a, "\n\n")
  {
    var s := a + "\n\n";
    forall j: nat | j < |a|
      ensures !OccursAt(s, "\n\n", j)
    {
      assert s[j] == a[j];
      assert s[j + 1] == if j + 1 < |a| then a[j + 1] else '\n';
      assert s[j..j + 2] == [s[j], s[j + 1]];
    }
  }

  /** A text without empty lines, with or without a final line feed, holds
      no blank line. */
  lemma NoEmptyLineNoBlank(a: string, end: string)
    requires NoEmptyLine(a) && end in {"", "\n"}
    ensures !Contains(a + end, "\n\n")
  {
    var s := a + end;
    forall j: nat | j + 2 <= |s|
      ensures !OccursAt(s, "\n\n", j)
    {
      assert s[j] == a[j];
      assert s[j + 1] == if j + 1 < |a| then a[j + 1] else '\n';
      assert s[j..j + 2] == [s[j], s[j + 1]];
    }
  }

  /** Each line terminated by `\n`: the inverse of `Lines` for lines that hold
      no line break and do not end in `\r`. */
  function Unlines(lines: seq<string>): string
  {
    if |lines| == 0 then "" else lines[0] + "\n" + Unlines(lines[1..])
  }

  /** The first line of `line + "\n" + rest` is `line`, less a trailing `\r`. */
  lemma LinesCons(line: string, rest: string)
    requires '\n' !in line
    ensures Lines(line + "\n" + rest) == [StripCarriageReturn(line)] + Lines(rest)
  {
    var s := line + "\n" + rest;
    assert Avoids(line, {'\n'});
    PieceLengthOfAvoiding(line, "\n" + rest, {'\n'});
    assert s == line + ("\n" + rest);
    assert s[..|line|] == line;
    assert s[|line| + 1..] == rest;
  }

  lemma {:induction false} LinesOfUnlines(lines: seq<string>)
    requires forall k :: 0 <= k < |lines| ==> '\n' !in lines[k]
    requires forall k :: 0 <= k < |lines| ==> StripCarriageReturn(lines[k]) == lines[k]
    ensures Lines(Unlines(lines)) == lines
    decreases |lines|
  {
    if |lines| > 0 {
      LinesCons(lines[0], Unlines(lines[1..]));
      LinesOfUnlines(lines[1..]);
      assert lines == [lines[0]] + lines[1..];
    }
  }

  //----------------------------------------------------------------------
  // Character classes and decimal integers
  //----------------------------------------------------------------------

  predicate IsDigit(c: char)
  {
    '0' <= c <= '9'
  }

  /** `char::is_ascii_hexdigit`. */
  predicate IsHexDigit(c: char)
  {
    IsDigit(c) || 'a' <= c <= 'f' || 'A' <= c <= 'F'
  }

  predicate AllDigits(s: string)
  {
    forall i :: 0 <= i < |s| ==> IsDigit(s[i])
  }

  function DigitValue(c: char): (d: nat)
    requires IsDigit(c)
    ensures d < 10
  {
    c as int - '0' as int
  }

  function DigitChar(d: nat): (c: char)
    requires d < 10
    ensures IsDigit(c) && DigitValue(c) == d
  {
    ('0' as int + d) as char
  }

  function Pow10(n: nat): (p: nat)
    ensures p >= 1
  {
    if n == 0 then 1 else 10 * Pow10(n - 1)
  }

  /** The number a string of decimal digits spells, most significant digit first. */
  function DecimalValue(s: string): (v: nat)
    requires AllDigits(s)
    ensures v < Pow10(|s|)
    decreases |s|
  {
    if |s| == 0 then 0
    else 10 * DecimalValue(s[..|s| - 1]) + DigitValue(s[|s| - 1])
  }

  /** `n.to_string()` for a natural number: its digits, with no leading zero. */
  function DecimalString(n: nat): (s: string)
    ensures |s| > 0 && AllDigits(s)
    ensures DecimalValue(s) == n
    ensures s[0] == '0' ==> s == "0"
  {
    if n < 10 then [DigitChar(n)]
    else
      var s := DecimalString(n / 10) + [DigitChar(n % 10)];
      assert s[..|s| - 1] == DecimalString(n / 10);
      s
  }

  /** `n` written with exactly `width` digits, padded with leading zeros. */
  function ZeroPadded(n: nat, width: nat): (s: string)
    requires n < Pow10(width)
    ensures |s| == width && AllDigits(s)
    ensures DecimalValue(s) == n
  {
    if width == 0 then ""
    else
      var s := ZeroPadded(n / 10, width - 1) + [DigitChar(n % 10)];
      assert s[..|s| - 1] == ZeroPadded(n / 10, width - 1);
      s
  }

  /** A digit string is the zero-padded rendering of its own value. */
  lemma {:induction false} ZeroPaddedOfValue(s: string)
    requires AllDigits(s)
    ensures ZeroPadded(DecimalValue(s), |s|) == s
    decreases |s|
  {
    if |s| > 0 {
      var p := s[..|s| - 1];
      var d := DigitValue(s[|s| - 1]);
      var n := DecimalValue(s);
      assert n == 10 * DecimalValue(p) + d;
      assert n / 10 == DecimalValue(p) && n % 10 == d;
      ZeroPaddedOfValue(p);
      assert DigitChar(d) == s[|s| - 1];
      assert s == p + [s[|s| - 1]];
    }
  }

  /** Rust's `str::parse` for an integer type whose range is `low..=high`:
      an optional `+` (or `-`, when the type is signed), then at least one
      decimal digit and nothing else; a value outside the range is rejected. */
  function ParseInteger(s: string, signed: bool, low: int, high: int): (r: Option<int>)
    ensures r.Some? <==> IntegerText(s, signed) && low <= SignedValue(s, signed) <= high
    ensures r.Some? ==> r.value == SignedValue(s, signed)
  {
    if |s| == 0 then None
    else
      var digits := Magnitude(s, signed);
      if |digits| == 0 || !AllDigits(digits) then None
      else
        var v: int := if signed && s[0] == '-' then -(DecimalValue(digits) as int) else DecimalValue(digits);
        if low <= v <= high then Some(v) else None
  }

  /** The part of `s` after the sign character the integer type admits. */
  function Magnitude(s: string, signed: bool): string
  {
    if |s| > 0 && (s[0] == '+' || (signed && s[0] == '-')) then s[1..] else s
  }

  /** An optional sign the type admits, then one or more decimal digits;
      leading zeros are allowed. */
  predicate IntegerText(s: string, signed: bool)
  {
    |Magnitude(s, signed)| > 0 && AllDigits(Magnitude(s, signed))
  }

  /** The number such a text spells, negated after a leading `-`. */
  function SignedValue(s: string, signed: bool): int
    requires IntegerText(s, signed)
  {
    var m: int := DecimalValue(Magnitude(s, signed));
    if signed && s[0] == '-' then -m else m
  }

  /** `n.to_string()` for any integer. */
  function ShowInt(n: int): string
  {
    if n < 0 then "-" + DecimalString(-n) else DecimalString(n)
  }

  /** Parsing what `to_string` printed gives the number back. */
  lemma ParseShowInt(n: int, signed: bool, low: int, high: int)
    requires low <= n <= high
    requires n < 0 ==> signed
    ensures ParseInteger(ShowInt(n), signed, low, high) == Some(n)
  {
    var s := ShowInt(n);
    if n < 0 {
      assert s[1..] == DecimalString(-n);
    }
  }

  /** Nothing that starts with a letter parses as a number. */
  lemma ParseIntegerNeedsDigits(s: string, signed: bool, low: int, high: int)
    requires |s| > 0 && !IsDigit(s[0]) && s[0] != '+' && s[0] != '-'
    ensures ParseInteger(s, signed, low, high) == None
  {
  }

  type Int16 = x: int | -0x8000 <= x < 0x8000

  /** `raw.parse::<i16>()`. */
  function ParseI16(raw: string): (r: Option<Int16>)
    ensures r.Some? <==> IntegerText(raw, true) && -0x8000 <= SignedValue(raw, true) <= 0x7FFF
    ensures r.Some? ==> r.value == SignedValue(raw, true)
  {
    match ParseInteger(raw, true, -0x8000, 0x7FFF)
    case None => None
    case Some(v) => Some(v)
  }

  const UsizeLimit: nat := 0x1_0000_0000_0000_0000

  type Usize = x: int | 0 <= x < UsizeLimit

  /** `raw.parse::<usize>()` on a 64-bit target: no `-` sign is admitted. */
  function ParseUsize(raw: string): (r: Option<Usize>)
    ensures r.Some? <==> IntegerText(raw, false) && DecimalValue(Magnitude(raw, false)) < UsizeLimit
    ensures r.Some? ==> r.value == DecimalValue(Magnitude(raw, false))
  {
    match ParseInteger(raw, false, 0, UsizeLimit - 1)
    case None => None
    case Some(v) => Some(v)
  }
}
