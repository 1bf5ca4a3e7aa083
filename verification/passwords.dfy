/** Password policies: a line `n1-n2 c: password` names two numbers and a
    letter, and the two policies read the numbers either as a range for the
    number of times the letter occurs or as two 1-based positions of which
    exactly one must hold the letter.
 */
module Passwords {
  import opened Text

  datatype Policy = Policy(n1: Usize, n2: Usize, letter: string)
  {
    /** How many characters of `password` are, as one-character strings,
        equal to `letter`. */
    function Occurrences(password: string): nat
    {
      if |password| == 0 then 0
      else Occurrences(password[..|password| - 1]) + (if [password[|password| - 1]] == letter then 1 else 0)
    }

    /** `accepts_range`: the letter occurs between `n1` and `n2` times. */
    predicate AcceptsRange(password: string)
    {
      n1 <= Occurrences(password) <= n2
    }

    /** Whether the `n`-th character (1-based) is the letter; a position past
        the end holds nothing, so it does not match. */
    predicate MatchesAt(password: string, n: nat)
      requires n >= 1
    {
      n - 1 < |password| && [password[n - 1]] == letter
    }

    /** `accepts_position`: the two positions disagree. The positions are
        1-based, and position 0 underflows `n - 1`. */
    predicate AcceptsPosition(password: string)
      requires n1 >= 1 && n2 >= 1
    {
      MatchesAt(password, n1) != MatchesAt(password, n2)
    }
  }

  datatype Record = Record(policy: Policy, password: string)
  {
    predicate ValidForSledRental()
    {
      policy.AcceptsRange(password)
    }

    predicate ValidForToboggan()
      requires policy.n1 >= 1 && policy.n2 >= 1
    {
      policy.AcceptsPosition(password)
    }
  }

  //----------------------------------------------------------------------
  // The two policies
  //----------------------------------------------------------------------

  /** A one-character letter is counted as often as it occurs; a letter of
      any other length never equals a single character. */
  lemma {:induction false} OccurrencesCountsLetter(p: Policy, password: string)
    ensures |p.letter| == 1 ==> p.Occurrences(password) == multiset(password)[p.letter[0]]
    ensures |p.letter| != 1 ==> p.Occurrences(password) == 0
    decreases |password|
  {
    if |password| > 0 {
      var init := password[..|password| - 1];
      var last := password[|password| - 1];
      OccurrencesCountsLetter(p, init);
      assert password == init + [last];
      assert multiset(password) == multiset(init) + multiset{last};
      assert ([last] == p.letter) <==> (|p.letter| == 1 && last == p.letter[0]);
    }
  }

  /** The range rule for a single character: its number of occurrences lies
      in `n1..=n2`. A longer or empty letter counts zero times, so then the
      rule holds exactly when `n1` is 0. */
  lemma AcceptsRangeIff(p: Policy, password: string)
    ensures |p.letter| == 1 ==>
              (p.AcceptsRange(password) <==> p.n1 <= multiset(password)[p.letter[0]] <= p.n2)
    ensures |p.letter| != 1 ==> (p.AcceptsRange(password) <==> p.n1 == 0)
  {
    OccurrencesCountsLetter(p, password);
  }

  /** The position rule is an exclusive or: the same position twice never
      passes, a letter that is not one character never matches, and a
      position past the end of the password counts as a mismatch. */
  lemma AcceptsPositionCases(p: Policy, password: string)
    requires p.n1 >= 1 && p.n2 >= 1
    ensures p.n1 == p.n2 ==> !p.AcceptsPosition(password)
    ensures |p.letter| != 1 ==> !p.AcceptsPosition(password)
    ensures p.n1 > |password| ==> (p.AcceptsPosition(password) <==> p.MatchesAt(password, p.n2))
    ensures p.n2 > |password| ==> (p.AcceptsPosition(password) <==> p.MatchesAt(password, p.n1))
  {
  }

  /** The position rule as a count: of the characters at the two positions,
      exactly one is the letter. */
  lemma AcceptsPositionIff(p: Policy, password: string)
    requires p.n1 >= 1 && p.n2 >= 1
    ensures p.AcceptsPosition(password) <==>
              |p.letter| == 1 && PositionHits(password, p.letter[0], [p.n1, p.n2]) == 1
  {
    var positions: seq<nat> := [p.n1, p.n2];
    assert positions[1..] == [p.n2] && positions[1..][1..] == [];
    if |p.letter| == 1 {
      var c := p.letter[0];
      assert p.letter == [c];
      assert p.MatchesAt(password, p.n1) <==> (p.n1 <= |password| && password[p.n1 - 1] == c);
      assert p.MatchesAt(password, p.n2) <==> (p.n2 <= |password| && password[p.n2 - 1] == c);
      var hit1 := if p.MatchesAt(password, p.n1) then 1 else 0;
      var hit2 := if p.MatchesAt(password, p.n2) then 1 else 0;
      assert PositionHits(password, c, positions[1..][1..]) == 0;
      assert PositionHits(password, c, positions[1..]) == hit2;
      assert PositionHits(password, c, positions) == hit1 + hit2;
    }
  }

  /** A record passes the sled-rental rule exactly when its one-character
      letter occurs between `n1` and `n2` times in its password. */
  lemma SledRentalIff(r: Record)
    requires |r.policy.letter| == 1
    ensures r.ValidForSledRental() <==>
              r.policy.n1 <= multiset(r.password)[r.policy.letter[0]] <= r.policy.n2
  {
    AcceptsRangeIff(r.policy, r.password);
  }

  /** A record passes the toboggan rule exactly when exactly one of its two
      positions holds its one-character letter. */
  lemma TobogganIff(r: Record)
    requires r.policy.n1 >= 1 && r.policy.n2 >= 1
    ensures r.ValidForToboggan() <==>
              |r.policy.letter| == 1
              && PositionHits(r.password, r.policy.letter[0], [r.policy.n1, r.policy.n2]) == 1
  {
    AcceptsPositionIff(r.policy, r.password);
  }

  /** How many of the 1-based `positions` hold `c`. */
  function PositionHits(password: string, c: char, positions: seq<nat>): nat
  {
    if |positions| == 0 then 0
    else
      var n := positions[0];
      (if 1 <= n <= |password| && password[n - 1] == c then 1 else 0)
      + PositionHits(password, c, positions[1..])
  }

  /** One more character of the password. */
  lemma OccurrencesStep(p: Policy, password: string, k: nat)
    requires 0 < k <= |password|
    ensures p.Occurrences(password[..k]) ==
              p.Occurrences(password[..k - 1]) + (if [password[k - 1]] == p.letter then 1 else 0)
  {
    assert password[..k][..k - 1] == password[..k - 1];
  }

  /** The three sample records left commented out in `main`. */
  lemma SampleRecords()
    ensures Record(Policy(1, 3, "a"), "abcde").ValidForSledRental()
    ensures !Record(Policy(1, 3, "b"), "cdefg").ValidForSledRental()
    ensures Record(Policy(2, 9, "c"), "ccccccccc").ValidForSledRental()
    ensures Record(Policy(1, 3, "a"), "abcde").ValidForToboggan()
    ensures !Record(Policy(1, 3, "b"), "cdefg").ValidForToboggan()
    ensures !Record(Policy(2, 9, "c"), "ccccccccc").ValidForToboggan()
  {
    FirstSample();
    SecondSample();
    ThirdSample();
  }

  lemma FirstSample()
    ensures Policy(1, 3, "a").Occurrences("abcde") == 1
  {
    var p, s := Policy(1, 3, "a"), "abcde";
    assert s[..0] == [];
    OccurrencesStep(p, s, 1);
    OccurrencesStep(p, s, 2);
    OccurrencesStep(p, s, 3);
    OccurrencesStep(p, s, 4);
    OccurrencesStep(p, s, 5);
    assert s[..5] == s;
  }

  lemma SecondSample()
    ensures Policy(1, 3, "b").Occurrences("cdefg") == 0
  {
    OccurrencesCountsLetter(Policy(1, 3, "b"), "cdefg");
    assert 'b' !in multiset("cdefg");
  }

  lemma ThirdSample()
    ensures Policy(2, 9, "c").Occurrences("ccccccccc") == 9
  {
    var p, s := Policy(2, 9, "c"), "ccccccccc";
    assert s[..0] == [];
    OccurrencesStep(p, s, 1);
    OccurrencesStep(p, s, 2);
    OccurrencesStep(p, s, 3);
    OccurrencesStep(p, s, 4);
    OccurrencesStep(p, s, 5);
    OccurrencesStep(p, s, 6);
    OccurrencesStep(p, s, 7);
    OccurrencesStep(p, s, 8);
    OccurrencesStep(p, s, 9);
    assert s[..9] == s;
  }

  //----------------------------------------------------------------------
  // Reading a line
  //----------------------------------------------------------------------

  /** Where `parse_line` would panic: fewer than four pieces (`parts[3]`), a
      bound that is not a `usize` (`unwrap`), or no `-` in the first piece
      (`pol[1]`). */
  datatype LineError = TooFewParts | NotANumber(raw: string) | NoUpperBound

  const LineSeparators: set<char> := {' ', ':'}

  /** `parse_line`: split on spaces and colons, so that `1-3 a: abcde` gives
      `1-3`, `a`, the empty piece between `:` and ` `, and `abcde`; then
      split the first piece on `-`. Failures are reported in the order the
      record's fields are evaluated: the password, then the lower bound, then
      the upper bound. */
  function ParseLine(line: string): (r: Result<Record, LineError>)
    ensures r.Ok? <==>
              && |SplitAny(line, LineSeparators)| >= 4
              && |SplitAny(SplitAny(line, LineSeparators)[0], {'-'})| >= 2
              && ParseUsize(SplitAny(SplitAny(line, LineSeparators)[0], {'-'})[0]).Some?
              && ParseUsize(SplitAny(SplitAny(line, LineSeparators)[0], {'-'})[1]).Some?
    ensures r.Ok? ==>
              && r.value.password == SplitAny(line, LineSeparators)[3]
              && r.value.policy.letter == SplitAny(line, LineSeparators)[1]
              && Some(r.value.policy.n1 as Usize) == ParseUsize(SplitAny(SplitAny(line, LineSeparators)[0], {'-'})[0])
              && Some(r.value.policy.n2 as Usize) == ParseUsize(SplitAny(SplitAny(line, LineSeparators)[0], {'-'})[1])
    ensures r == Err(TooFewParts) <==> |SplitAny(line, LineSeparators)| < 4
    ensures var parts := SplitAny(line, LineSeparators);
            var pol := SplitAny(parts[0], {'-'});
            && (r == Err(NoUpperBound) <==> |parts| >= 4 && ParseUsize(pol[0]).Some? && |pol| < 2)
            && (r.Err? && r.error.NotANumber? <==>
                  |parts| >= 4 && (ParseUsize(pol[0]).None? || (|pol| >= 2 && ParseUsize(pol[1]).None?)))
            && (r.Err? && r.error.NotANumber? ==>
                  r.error.raw == if ParseUsize(pol[0]).None? then pol[0] else pol[1])
    ensures r.Ok? ==> Avoids(r.value.password, LineSeparators) && Avoids(r.value.policy.letter, LineSeparators)
  {
    var parts := SplitAny(line, LineSeparators);
    var pol := SplitAny(parts[0], {'-'});
    if |parts| < 4 then Err(TooFewParts)
    else
      match ParseUsize(pol[0])
      case None => Err(NotANumber(pol[0]))
      case Some(n1) =>
        if |pol| < 2 then Err(NoUpperBound)
        else
          match ParseUsize(pol[1])
          case None => Err(NotANumber(pol[1]))
          case Some(n2) => Ok(Record(Policy(n1, n2, parts[1]), parts[3]))
  }

  /** A record written out the way the input file writes it. */
  function FormatLine(r: Record): string
  {
    DecimalString(r.policy.n1) + "-" + DecimalString(r.policy.n2) + " " + r.policy.letter + ": " + r.password
  }

  /** Reading a written record gives it back, whatever follows it after a
      space or a colon: the password stops at the next separator. */
  lemma ParseFormatLine(r: Record, rest: string)
    requires Avoids(r.policy.letter, LineSeparators) && Avoids(r.password, LineSeparators)
    requires |rest| > 0 ==> rest[0] in LineSeparators
    ensures ParseLine(FormatLine(r) + rest) == Ok(r)
  {
    var d1, d2 := DecimalString(r.policy.n1), DecimalString(r.policy.n2);
    var range := d1 + "-" + d2;
    var line := FormatLine(r) + rest;
    var t0 := r.password + rest;
    var t1 := [] + [' '] + t0;
    var t2 := r.policy.letter + [':'] + t1;
    assert line == range + [' '] + t2;
    DigitsAvoid(d1, LineSeparators);
    DigitsAvoid(d2, LineSeparators);
    assert Avoids(range, LineSeparators) by {
      assert forall i :: 0 <= i < |range| ==> range[i] in d1 || range[i] == '-' || range[i] in d2;
    }
    LinePieces(range, r.policy.letter, r.password, rest, t0, t1, t2, line);
    DigitsAvoid(d1, {'-'});
    DigitsAvoid(d2, {'-'});
    SplitAnyCons(d1, '-', d2, {'-'});
    SplitAnyWithout(d2, {'-'});
    assert SplitAny(range, {'-'}) == [d1, d2];
    ParseShowInt(r.policy.n1, false, 0, UsizeLimit - 1);
    ParseShowInt(r.policy.n2, false, 0, UsizeLimit - 1);
  }

  /** The pieces of `range letter: password rest`, written out as the
      nested concatenation `line == range + " " + t2`, `t2 == letter + ":" + t1`,
      `t1 == " " + t0`, `t0 == password + rest`. */
  lemma LinePieces(range: string, letter: string, password: string, rest: string,
                   t0: string, t1: string, t2: string, line: string)
    requires Avoids(range, LineSeparators) && Avoids(letter, LineSeparators) && Avoids(password, LineSeparators)
    requires |rest| > 0 ==> rest[0] in LineSeparators
    requires t0 == password + rest && t1 == [] + [' '] + t0
    requires t2 == letter + [':'] + t1 && line == range + [' '] + t2
    ensures var parts := SplitAny(line, LineSeparators);
            |parts| >= 4 && parts[0] == range && parts[1] == letter && parts[3] == password
  {
    LastPiece(password, rest);
    PieceThenRest([], ' ', t0, t1);
    PieceThenRest(letter, ':', t1, t2);
    PieceThenRest(range, ' ', t2, line);
  }

  lemma PieceThenRest(piece: string, c: char, rest: string, s: string)
    requires Avoids(piece, LineSeparators) && c in LineSeparators && s == piece + [c] + rest
    ensures SplitAny(s, LineSeparators) == [piece] + SplitAny(rest, LineSeparators)
  {
    SplitAnyCons(piece, c, rest, LineSeparators);
  }

  /** A separator-free piece followed by nothing or by a separator. */
  lemma LastPiece(piece: string, rest: string)
    requires Avoids(piece, LineSeparators)
    requires |rest| > 0 ==> rest[0] in LineSeparators
    ensures SplitAny(piece + rest, LineSeparators)[0] == piece
  {
    if |rest| == 0 {
      assert piece + rest == piece;
      SplitAnyWithout(piece, LineSeparators);
    } else {
      assert piece + rest == piece + [rest[0]] + rest[1..];
      SplitAnyCons(piece, rest[0], rest[1..], LineSeparators);
    }
  }

  lemma DigitsAvoid(digits: string, separators: set<char>)
    requires AllDigits(digits)
    requires forall c :: c in separators ==> !IsDigit(c)
    ensures Avoids(digits, separators)
  {
  }

  /** A line with no separator at all is cut short. */
  lemma LineWithoutSeparators(line: string)
    requires Avoids(line, LineSeparators)
    ensures ParseLine(line) == Err(TooFewParts)
  {
    SplitAnyWithout(line, LineSeparators);
  }
}
