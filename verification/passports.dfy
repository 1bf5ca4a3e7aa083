/** Passport records assembled from a block of `key:value` tokens, under two
    validation policies: the permissive `Passport` (every required field is
    present and non-empty) and the strict `StrictPassport` (every required
    field parses and passes its own rule). `cid` is optional under both.
 */
module Passports {
  import opened Text
  import opened Fields
  import Batch

  //----------------------------------------------------------------------
  // Keys and tokens
  //----------------------------------------------------------------------

  datatype Key = Byr | Iyr | Eyr | Hgt | Hcl | Ecl | Pid | Cid

  function KeyName(k: Key): string
  {
    match k
    case Byr => "byr"
    case Iyr => "iyr"
    case Eyr => "eyr"
    case Hgt => "hgt"
    case Hcl => "hcl"
    case Ecl => "ecl"
    case Pid => "pid"
    case Cid => "cid"
  }

  /** The key a name spells, if it spells one. */
  function KeyOf(name: string): (k: Option<Key>)
    ensures k.Some? ==> KeyName(k.value) == name
    ensures (exists key :: KeyName(key) == name) ==> k.Some?
  {
    if name == "byr" then Some(Byr)
    else if name == "iyr" then Some(Iyr)
    else if name == "eyr" then Some(Eyr)
    else if name == "hgt" then Some(Hgt)
    else if name == "hcl" then Some(Hcl)
    else if name == "ecl" then Some(Ecl)
    else if name == "pid" then Some(Pid)
    else if name == "cid" then Some(Cid)
    else None
  }

  /** The two ways a block can fail to assemble; both end the program with
      `unreachable!()`. */
  datatype AssemblyError =
    | MalformedToken(token: string)   // not exactly one `:`
    | UnknownKey(key: string)         // a name outside the eight keys

  /** One whitespace-free token `key:value`. */
  function ParsePair(token: string): (r: Result<(Key, string), AssemblyError>)
    ensures r.Ok? ==> token == KeyName(r.value.0) + ":" + r.value.1 && ':' !in r.value.1
    ensures r == Err(MalformedToken(token)) <==> |Split(token, ":")| != 2
    ensures r.Err? && r.error.UnknownKey? ==> ':' !in r.error.key && r.error.key + ":" <= token
  {
    var parts := Split(token, ":");
    if |parts| != 2 then Err(MalformedToken(token))
    else
      ContainsChar(parts[0], ':');
      ContainsChar(parts[1], ':');
      assert token == parts[0] + ":" + parts[1];
      match KeyOf(parts[0])
      case None => Err(UnknownKey(parts[0]))
      case Some(k) => Ok((k, parts[1]))
  }

  /** A key and a colon-free value, written `key:value`, read back as themselves. */
  lemma ParsePairRoundTrip(k: Key, value: string)
    requires ':' !in value
    ensures ParsePair(KeyName(k) + ":" + value) == Ok((k, value))
  {
    var name := KeyName(k);
    SplitKeyValue(name, value);
    assert KeyOf(name) == Some(k) by {
      KeyNameInjective(k);
    }
  }

  lemma KeyNameInjective(k: Key)
    ensures KeyOf(KeyName(k)) == Some(k)
  {
  }

  /** `name:value` splits on `:` into its name and its value. */
  lemma SplitKeyValue(name: string, value: string)
    requires ':' !in name && ':' !in value
    ensures Split(name + ":" + value, ":") == [name, value]
  {
    forall j: nat | j < |name|
      ensures !OccursAt(name + ":", ":", j)
    {
      assert (name + ":")[j..j + 1] == [name[j]];
    }
    SplitCons(name, ":", value);
    ContainsChar(value, ':');
    SplitWithout(value, ":");
  }

  /** The block's whitespace-separated tokens, in order, each read as a pair. */
  function Pairs(block: string): Result<seq<(Key, string)>, AssemblyError>
  {
    ParseTokens(Words(block))
  }

  /** Every token read as a pair, or the first token that is not one. */
  function ParseTokens(tokens: seq<string>): (r: Result<seq<(Key, string)>, AssemblyError>)
    ensures r.Ok? ==> |r.value| == |tokens|
    ensures r.Ok? ==> forall i :: 0 <= i < |r.value| ==> ParsePair(tokens[i]) == Ok(r.value[i])
    ensures r.Ok? <==> forall i :: 0 <= i < |tokens| ==> ParsePair(tokens[i]).Ok?
    ensures r.Err? ==> exists i :: 0 <= i < |tokens| && ParsePair(tokens[i]) == Err(r.error)
                                   && forall j :: 0 <= j < i ==> ParsePair(tokens[j]).Ok?
  {
    var parse := ParsePair;
    var r := MapResults(tokens, parse);
    assert r.Err? ==> exists i :: 0 <= i < |tokens| && ParsePair(tokens[i]) == Err(r.error)
                                  && forall j :: 0 <= j < i ==> ParsePair(tokens[j]).Ok? by {
      if r.Err? {
        var i :| 0 <= i < |tokens| && parse(tokens[i]) == Err(r.error)
                  && forall j :: 0 <= j < i ==> parse(tokens[j]).Ok?;
        assert ParsePair(tokens[i]) == Err(r.error);
      }
    }
    assert (forall i :: 0 <= i < |tokens| ==> ParsePair(tokens[i]).Ok?) ==> r.Ok? by {
      if forall i :: 0 <= i < |tokens| ==> ParsePair(tokens[i]).Ok? {
        forall i | 0 <= i < |tokens|
          ensures parse(tokens[i]).Ok?
        {
          assert parse(tokens[i]) == ParsePair(tokens[i]);
        }
      }
    }
    r
  }

  //----------------------------------------------------------------------
  // Writing pairs back as text
  //----------------------------------------------------------------------

  /** A value that can be written as a token's right-hand side: no colon and
      no whitespace. */
  predicate PlainValue(v: string)
  {
    ':' !in v && forall i :: 0 <= i < |v| ==> !IsWhitespace(v[i])
  }

  predicate PlainPairs(pairs: seq<(Key, string)>)
  {
    forall i :: 0 <= i < |pairs| ==> PlainValue(pairs[i].1)
  }

  function TokenText(pair: (Key, string)): string
  {
    KeyName(pair.0) + ":" + pair.1
  }

  /** The pairs written on one line as `key:value` tokens separated by a space. */
  function RecordText(pairs: seq<(Key, string)>): string
  {
    Join(seq(|pairs|, i requires 0 <= i < |pairs| => TokenText(pairs[i])), " ")
  }

  /** A token of a plain value is a word with no line break in it. */
  lemma PlainToken(pair: (Key, string))
    requires PlainValue(pair.1)
    ensures IsWord(TokenText(pair)) && '\n' !in TokenText(pair)
  {
    var t := TokenText(pair);
    var name := KeyName(pair.0);
    forall i | 0 <= i < |t|
      ensures !IsWhitespace(t[i])
    {
      if i > |name| {
        assert t[i] == pair.1[i - |name| - 1];
      }
    }
  }

  /** Reading a written record gives back its pairs. */
  lemma RecordTextRoundTrip(pairs: seq<(Key, string)>)
    requires PlainPairs(pairs)
    ensures Pairs(RecordText(pairs)) == Ok(pairs)
    ensures '\n' !in RecordText(pairs)
  {
    var tokens := seq(|pairs|, i requires 0 <= i < |pairs| => TokenText(pairs[i]));
    forall i | 0 <= i < |pairs|
      ensures IsWord(tokens[i]) && '\n' !in tokens[i]
      ensures ParsePair(tokens[i]) == Ok(pairs[i])
    {
      PlainToken(pairs[i]);
      ParsePairRoundTrip(pairs[i].0, pairs[i].1);
    }
    WordsOfJoin(tokens, ' ');
    JoinAvoids(tokens, " ", '\n');
    var r := ParseTokens(tokens);
    assert r.Ok? && |r.value| == |pairs|;
    assert r.value == pairs;
  }

  //----------------------------------------------------------------------
  // Permissive passports
  //----------------------------------------------------------------------

  datatype Passport = Passport(
    byr: string, iyr: string, eyr: string, hgt: string,
    hcl: string, ecl: string, pid: string, cid: string)
  {
    function Get(k: Key): string
    {
      match k
      case Byr => byr
      case Iyr => iyr
      case Eyr => eyr
      case Hgt => hgt
      case Hcl => hcl
      case Ecl => ecl
      case Pid => pid
      case Cid => cid
    }

    /** Storing a token's value overwrites its key's slot and nothing else. */
    function Set(k: Key, v: string): (p: Passport)
      ensures p.Get(k) == v
      ensures forall other :: other != k ==> p.Get(other) == Get(other)
    {
      match k
      case Byr => this.(byr := v)
      case Iyr => this.(iyr := v)
      case Eyr => this.(eyr := v)
      case Hgt => this.(hgt := v)
      case Hcl => this.(hcl := v)
      case Ecl => this.(ecl := v)
      case Pid => this.(pid := v)
      case Cid => this.(cid := v)
    }

    /** Every field but `cid` is non-empty. */
    predicate IsValid()
    {
      byr != "" && iyr != "" && eyr != "" && hgt != "" && hcl != "" && ecl != "" && pid != ""
    }
  }

  /** Some pair carries key `k`. */
  predicate Mentions(pairs: seq<(Key, string)>, k: Key)
  {
    exists i :: 0 <= i < |pairs| && pairs[i].0 == k
  }

  const EmptyPassport: Passport := Passport("", "", "", "", "", "", "", "")

  /** The required keys: every key but `cid`. */
  predicate Required(k: Key)
  {
    k != Cid
  }

  lemma RequiredKeys(k: Key)
    ensures Required(k) <==> k in {Byr, Iyr, Eyr, Hgt, Hcl, Ecl, Pid}
  {
  }

  /** A permissive passport is valid exactly when every required key's slot
      is non-empty. */
  lemma PassportValidIff(p: Passport)
    ensures p.IsValid() <==> forall k :: Required(k) ==> p.Get(k) != ""
  {
    forall k | Required(k)
      ensures p.IsValid() ==> p.Get(k) != ""
    {
      RequiredKeys(k);
    }
    assert Required(Byr) && Required(Iyr) && Required(Eyr) && Required(Hgt);
    assert Required(Hcl) && Required(Ecl) && Required(Pid);
  }

  /** Stores the pairs into `p` one after another. */
  function FillPassport(p: Passport, pairs: seq<(Key, string)>): Passport
    decreases |pairs|
  {
    if |pairs| == 0 then p else FillPassport(p.Set(pairs[0].0, pairs[0].1), pairs[1..])
  }

  /** `Passport::from`: a key that no token names stays empty, and a key
      named several times keeps the value of its last token. */
  function AssemblePassport(block: string): (r: Result<Passport, AssemblyError>)
    ensures r.Ok? <==> Pairs(block).Ok?
    ensures r.Ok? ==> r.value == FillPassport(EmptyPassport, Pairs(block).value)
    ensures r.Ok? ==> forall k :: !Mentions(Pairs(block).value, k) ==> r.value.Get(k) == ""
    ensures r.Ok? ==>
              var pairs := Pairs(block).value;
              forall k, i :: 0 <= i < |pairs| && pairs[i].0 == k && !Mentions(pairs[i + 1..], k) ==>
                r.value.Get(k) == pairs[i].1
  {
    match Pairs(block)
    case Err(e) => Err(e)
    case Ok(pairs) =>
      FilledSlots(pairs);
      Ok(FillPassport(EmptyPassport, pairs))
  }

  /** What each slot of a passport filled from the empty one holds. */
  lemma FilledSlots(pairs: seq<(Key, string)>)
    ensures forall k :: !Mentions(pairs, k) ==> FillPassport(EmptyPassport, pairs).Get(k) == ""
    ensures forall k, i :: 0 <= i < |pairs| && pairs[i].0 == k && !Mentions(pairs[i + 1..], k) ==>
              FillPassport(EmptyPassport, pairs).Get(k) == pairs[i].1
  {
    forall k | !Mentions(pairs, k)
      ensures FillPassport(EmptyPassport, pairs).Get(k) == ""
    {
      FillKeepsUnmentioned(EmptyPassport, pairs, k);
    }
    forall k, i | 0 <= i < |pairs| && pairs[i].0 == k && !Mentions(pairs[i + 1..], k)
      ensures FillPassport(EmptyPassport, pairs).Get(k) == pairs[i].1
    {
      FillLastWriteWins(EmptyPassport, pairs, k, i);
    }
  }

  /** A key no pair carries keeps its slot. */
  lemma {:induction false} FillKeepsUnmentioned(p: Passport, pairs: seq<(Key, string)>, k: Key)
    requires !Mentions(pairs, k)
    ensures FillPassport(p, pairs).Get(k) == p.Get(k)
    decreases |pairs|
  {
    if |pairs| > 0 {
      assert !Mentions(pairs[1..], k) by {
        forall i | 0 <= i < |pairs| - 1
          ensures pairs[1..][i].0 != k
        {
          assert pairs[1..][i] == pairs[i + 1];
        }
      }
      FillKeepsUnmentioned(p.Set(pairs[0].0, pairs[0].1), pairs[1..], k);
    }
  }

  /** The last pair with key `k` decides `k`'s slot. */
  lemma {:induction false} FillLastWriteWins(p: Passport, pairs: seq<(Key, string)>, k: Key, i: nat)
    requires i < |pairs| && pairs[i].0 == k && !Mentions(pairs[i + 1..], k)
    ensures FillPassport(p, pairs).Get(k) == pairs[i].1
    decreases i
  {
    var q := p.Set(pairs[0].0, pairs[0].1);
    if i == 0 {
      FillKeepsUnmentioned(q, pairs[1..], k);
    } else {
      assert pairs[1..][i - 1] == pairs[i];
      assert pairs[1..][i..] == pairs[i + 1..];
      FillLastWriteWins(q, pairs[1..], k, i - 1);
    }
  }

  //----------------------------------------------------------------------
  // Strict passports
  //----------------------------------------------------------------------

  datatype StrictPassport = StrictPassport(
    birthYear: BirthYear,
    issueYear: IssueYear,
    expirationYear: ExpirationYear,
    height: Height,
    hairColor: HairColor,
    eyeColor: EyeColor,
    passportId: PassportID,
    countryId: string)
  {
    /** Whether the field for `k` passes its rule; `cid` has none. */
    predicate Accepts(k: Key)
    {
      match k
      case Byr => birthYear.IsValid()
      case Iyr => issueYear.IsValid()
      case Eyr => expirationYear.IsValid()
      case Hgt => height.IsValid()
      case Hcl => hairColor.IsValid()
      case Ecl => eyeColor.IsValid()
      case Pid => passportId.IsValid()
      case Cid => true
    }

    /** Parsing a token's value into its key's field; `cid` is kept verbatim. */
    function Set(k: Key, v: string): (p: StrictPassport)
      ensures p.Accepts(k) == FieldAccepts(k, v)
      ensures forall other :: other != k ==> p.Accepts(other) == Accepts(other)
      ensures p.countryId == (if k == Cid then v else countryId)
      ensures p.birthYear == (if k == Byr then BirthYear.Parse(v) else birthYear)
      ensures p.issueYear == (if k == Iyr then IssueYear.Parse(v) else issueYear)
      ensures p.expirationYear == (if k == Eyr then ExpirationYear.Parse(v) else expirationYear)
      ensures p.height == (if k == Hgt then Height.Parse(v) else height)
      ensures p.hairColor == (if k == Hcl then HairColor.Parse(v) else hairColor)
      ensures p.eyeColor == (if k == Ecl then EyeColor.Parse(v) else eyeColor)
      ensures p.passportId == (if k == Pid then PassportID.Parse(v) else passportId)
    {
      match k
      case Byr => this.(birthYear := BirthYear.Parse(v))
      case Iyr => this.(issueYear := IssueYear.Parse(v))
      case Eyr => this.(expirationYear := ExpirationYear.Parse(v))
      case Hgt => this.(height := Height.Parse(v))
      case Hcl => this.(hairColor := HairColor.Parse(v))
      case Ecl => this.(eyeColor := EyeColor.Parse(v))
      case Pid => this.(passportId := PassportID.Parse(v))
      case Cid => this.(countryId := v)
    }

    /** All seven typed fields pass; `cid` is never inspected. */
    predicate IsValid()
    {
      && birthYear.IsValid()
      && issueYear.IsValid()
      && expirationYear.IsValid()
      && height.IsValid()
      && hairColor.IsValid()
      && eyeColor.IsValid()
      && passportId.IsValid()
    }
  }

  /** A strict passport is valid exactly when every required key's field
      passes its rule. */
  lemma StrictPassportValidIff(p: StrictPassport)
    ensures p.IsValid() <==> forall k :: Required(k) ==> p.Accepts(k)
  {
    forall k | Required(k)
      ensures p.IsValid() ==> p.Accepts(k)
    {
      RequiredKeys(k);
    }
    assert Required(Byr) && Required(Iyr) && Required(Eyr) && Required(Hgt);
    assert Required(Hcl) && Required(Ecl) && Required(Pid);
  }

  /** The field rule of key `k` applied to a raw value. */
  predicate FieldAccepts(k: Key, raw: string)
  {
    match k
    case Byr => BirthYear.Parse(raw).IsValid()
    case Iyr => IssueYear.Parse(raw).IsValid()
    case Eyr => ExpirationYear.Parse(raw).IsValid()
    case Hgt => Height.Parse(raw).IsValid()
    case Hcl => HairColor.Parse(raw).IsValid()
    case Ecl => EyeColor.Parse(raw).IsValid()
    case Pid => PassportID.Parse(raw).IsValid()
    case Cid => true
  }

  /** No required field accepts an empty value. */
  lemma EmptyValueRejected(k: Key)
    requires k != Cid
    ensures !FieldAccepts(k, "")
  {
  }

  const EmptyStrictPassport: StrictPassport := StrictPassport(
    BirthYear(None), IssueYear(None), ExpirationYear(None), Height(None),
    HairColor(None), EyeColor(None), PassportID(None), "")

  function FillStrictPassport(p: StrictPassport, pairs: seq<(Key, string)>): StrictPassport
    decreases |pairs|
  {
    if |pairs| == 0 then p else FillStrictPassport(p.Set(pairs[0].0, pairs[0].1), pairs[1..])
  }

  /** `StrictPassport::from`: the same block, read strictly, passes exactly
      when every required value the permissive reading keeps passes its
      field's rule. */
  function AssembleStrictPassport(block: string): (r: Result<StrictPassport, AssemblyError>)
    ensures r.Ok? <==> Pairs(block).Ok?
    ensures r.Ok? ==> r.value == FillStrictPassport(EmptyStrictPassport, Pairs(block).value)
    ensures r.Ok? ==> AssemblePassport(block).Ok?
    ensures r.Ok? ==>
              (r.value.IsValid() <==>
                 forall k :: Required(k) ==> FieldAccepts(k, AssemblePassport(block).value.Get(k)))
  {
    match Pairs(block)
    case Err(e) => Err(e)
    case Ok(pairs) =>
      StrictValidIffFieldsAccept(pairs);
      Ok(FillStrictPassport(EmptyStrictPassport, pairs))
  }

  //----------------------------------------------------------------------
  // The two policies over the same pairs
  //----------------------------------------------------------------------

  /** A strict record's fields pass exactly when the raw values the permissive
      record holds for them would pass. */
  ghost predicate Mirrors(s: StrictPassport, p: Passport)
  {
    forall k :: k != Cid ==> (s.Accepts(k) <==> FieldAccepts(k, p.Get(k)))
  }

  lemma {:induction false} FillMirrors(s: StrictPassport, p: Passport, pairs: seq<(Key, string)>)
    requires Mirrors(s, p)
    ensures Mirrors(FillStrictPassport(s, pairs), FillPassport(p, pairs))
    decreases |pairs|
  {
    if |pairs| > 0 {
      var (k, v) := pairs[0];
      assert Mirrors(s.Set(k, v), p.Set(k, v));
      FillMirrors(s.Set(k, v), p.Set(k, v), pairs[1..]);
    }
  }

  /** A strictly assembled record is valid exactly when each required key's
      last value passes that key's field rule; a key that never appears
      leaves the record invalid. */
  lemma StrictValidIffFieldsAccept(pairs: seq<(Key, string)>)
    ensures FillStrictPassport(EmptyStrictPassport, pairs).IsValid() <==>
              forall k :: Required(k) ==> FieldAccepts(k, FillPassport(EmptyPassport, pairs).Get(k))
    ensures forall k :: Required(k) && !Mentions(pairs, k) ==>
              !FillStrictPassport(EmptyStrictPassport, pairs).IsValid()
  {
    forall k | k != Cid
      ensures EmptyStrictPassport.Accepts(k) <==> FieldAccepts(k, EmptyPassport.Get(k))
    {
      EmptyValueRejected(k);
    }
    FillMirrors(EmptyStrictPassport, EmptyPassport, pairs);
    StrictPassportValidIff(FillStrictPassport(EmptyStrictPassport, pairs));
    forall k | Required(k) && !Mentions(pairs, k)
      ensures !FillStrictPassport(EmptyStrictPassport, pairs).IsValid()
    {
      FillKeepsUnmentioned(EmptyPassport, pairs, k);
      EmptyValueRejected(k);
    }
  }

  /** Whatever passes the strict policy passes the permissive one. */
  lemma StrictImpliesPermissive(pairs: seq<(Key, string)>)
    ensures FillStrictPassport(EmptyStrictPassport, pairs).IsValid() ==>
              FillPassport(EmptyPassport, pairs).IsValid()
  {
    StrictValidIffFieldsAccept(pairs);
    PassportValidIff(FillPassport(EmptyPassport, pairs));
    forall k | k != Cid
      ensures FieldAccepts(k, FillPassport(EmptyPassport, pairs).Get(k)) ==>
                FillPassport(EmptyPassport, pairs).Get(k) != ""
    {
      EmptyValueRejected(k);
    }
  }

  //----------------------------------------------------------------------
  // Batches of passports
  //----------------------------------------------------------------------

  function IsValidPassport(p: Passport): bool
  {
    p.IsValid()
  }

  function IsValidStrictPassport(p: StrictPassport): bool
  {
    p.IsValid()
  }

  /** Records written one per line, with an empty line between records. */
  function BatchText(batch: seq<seq<(Key, string)>>): string
  {
    Join(seq(|batch|, i requires 0 <= i < |batch| => RecordText(batch[i])), Batch.RecordSeparator)
  }

  function PermissiveRecords(batch: seq<seq<(Key, string)>>): seq<Passport>
  {
    seq(|batch|, i requires 0 <= i < |batch| => FillPassport(EmptyPassport, batch[i]))
  }

  function StrictRecords(batch: seq<seq<(Key, string)>>): seq<StrictPassport>
  {
    seq(|batch|, i requires 0 <= i < |batch| => FillStrictPassport(EmptyStrictPassport, batch[i]))
  }

  /** Reading a written batch gives one record per written record, under
      either policy. */
  lemma BatchTextRoundTrip(batch: seq<seq<(Key, string)>>)
    requires |batch| >= 1
    requires forall i :: 0 <= i < |batch| ==> PlainPairs(batch[i])
    ensures Batch.Parse(BatchText(batch), AssemblePassport) == Ok(PermissiveRecords(batch))
    ensures Batch.Parse(BatchText(batch), AssembleStrictPassport) == Ok(StrictRecords(batch))
  {
    var texts := seq(|batch|, i requires 0 <= i < |batch| => RecordText(batch[i]));
    forall i | 0 <= i < |batch|
      ensures '\n' !in texts[i]
      ensures AssemblePassport(texts[i]) == Ok(PermissiveRecords(batch)[i])
      ensures AssembleStrictPassport(texts[i]) == Ok(StrictRecords(batch)[i])
    {
      RecordTextRoundTrip(batch[i]);
    }
    SplitOfJoin(texts, Batch.RecordSeparator);
    assert Batch.Blocks(BatchText(batch)) == texts;
    var loose := Batch.Parse(BatchText(batch), AssemblePassport);
    assert loose.Ok? && |loose.value| == |batch|;
    assert loose.value == PermissiveRecords(batch);
    var strict := Batch.Parse(BatchText(batch), AssembleStrictPassport);
    assert strict.Ok? && |strict.value| == |batch|;
    assert strict.value == StrictRecords(batch);
  }

  //----------------------------------------------------------------------
  // Records laid out over several lines
  //----------------------------------------------------------------------

  /** A record written over several lines, each line holding some of its
      pairs separated by spaces. */
  function LaidOutRecordText(lines: seq<seq<(Key, string)>>): string
  {
    Join(seq(|lines|, i requires 0 <= i < |lines| => RecordText(lines[i])), "\n")
  }

  /** Laid-out records with an empty line between records, and, when
      `finalLineFeed` holds, a line feed after the last line. */
  function LaidOutBatchText(layout: seq<seq<seq<(Key, string)>>>, finalLineFeed: bool): string
  {
    Join(RecordTexts(layout), Batch.RecordSeparator) + (if finalLineFeed then "\n" else "")
  }

  function RecordTexts(layout: seq<seq<seq<(Key, string)>>>): (texts: seq<string>)
    ensures |texts| == |layout|
    ensures forall i :: 0 <= i < |layout| ==> texts[i] == LaidOutRecordText(layout[i])
  {
    seq(|layout|, i requires 0 <= i < |layout| => LaidOutRecordText(layout[i]))
  }

  /** The pairs of a laid-out record, line after line. */
  function Flatten(lines: seq<seq<(Key, string)>>): seq<(Key, string)>
  {
    if |lines| == 0 then [] else lines[0] + Flatten(lines[1..])
  }

  /** Every pair of every line is a pair of the flattened record. */
  lemma {:induction false} FlattenHolds(lines: seq<seq<(Key, string)>>, l: nat, i: nat)
    requires l < |lines| && i < |lines[l]|
    ensures lines[l][i] in Flatten(lines)
    decreases l
  {
    if l > 0 {
      FlattenHolds(lines[1..], l - 1, i);
      assert lines[1..][l - 1] == lines[l];
    }
  }

  function FlattenAll(layout: seq<seq<seq<(Key, string)>>>): seq<seq<(Key, string)>>
  {
    seq(|layout|, i requires 0 <= i < |layout| => Flatten(layout[i]))
  }

  /** Tokens that all read as pairs, followed by more such tokens, read as
      the two runs of pairs one after the other. */
  lemma ParseTokensAppend(first: seq<string>, second: seq<string>)
    requires ParseTokens(first).Ok? && ParseTokens(second).Ok?
    ensures ParseTokens(first + second) == Ok(ParseTokens(first).value + ParseTokens(second).value)
  {
    var parse := ParsePair;
    assert ParseTokens(first) == MapResults(first, parse);
    assert ParseTokens(second) == MapResults(second, parse);
    assert ParseTokens(first + second) == MapResults(first + second, parse);
    MapResultsAppend(first, second, parse);
  }

  /** Two blocks of pairs separated by a whitespace character read as one
      block holding both. */
  lemma PairsAcrossSpace(x: string, c: char, y: string)
    requires IsWhitespace(c) && Pairs(x).Ok? && Pairs(y).Ok?
    ensures Pairs(x + [c] + y) == Ok(Pairs(x).value + Pairs(y).value)
  {
    WordsAroundSpace(x, c, y);
    ParseTokensAppend(Words(x), Words(y));
  }

  /** Reading a laid-out record gives back its pairs, line after line. */
  lemma {:induction false} LaidOutRecordRoundTrip(lines: seq<seq<(Key, string)>>)
    requires forall l :: 0 <= l < |lines| ==> PlainPairs(lines[l])
    ensures Pairs(LaidOutRecordText(lines)) == Ok(Flatten(lines))
    decreases |lines|
  {
    if |lines| == 0 {
      assert LaidOutRecordText(lines) == "";
      assert Words("") == [];
      assert Pairs("") == Ok([]);
      assert Flatten(lines) == [];
      assert Pairs(LaidOutRecordText(lines)) == Ok(Flatten(lines));
    } else if |lines| == 1 {
      RecordTextRoundTrip(lines[0]);
      assert LaidOutRecordText(lines) == RecordText(lines[0]);
      assert Flatten(lines) == lines[0] + [] == lines[0];
      assert Pairs(LaidOutRecordText(lines)) == Ok(Flatten(lines));
    } else {
      var tail := lines[1..];
      var head := RecordText(lines[0]);
      var texts := seq(|lines|, i requires 0 <= i < |lines| => RecordText(lines[i]));
      assert texts[1..] == seq(|tail|, i requires 0 <= i < |tail| => RecordText(tail[i]));
      assert LaidOutRecordText(lines) == head + ['\n'] + LaidOutRecordText(tail);
      RecordTextRoundTrip(lines[0]);
      LaidOutRecordRoundTrip(tail);
      PairsAcrossSpace(head, '\n', LaidOutRecordText(tail));
      assert Flatten(lines) == lines[0] + Flatten(tail);
      assert Pairs(LaidOutRecordText(lines)) == Ok(Flatten(lines));
    }
  }

  /** A record laid out over non-empty lines has no empty line. */
  lemma LaidOutRecordNoEmptyLine(lines: seq<seq<(Key, string)>>)
    requires forall l :: 0 <= l < |lines| ==> |lines[l]| > 0 && PlainPairs(lines[l])
    ensures NoEmptyLine(LaidOutRecordText(lines))
  {
    var texts := seq(|lines|, i requires 0 <= i < |lines| => RecordText(lines[i]));
    assert Pairs("") == Ok([]) by {
      assert Words("") == [];
    }
    forall l | 0 <= l < |lines|
      ensures |texts[l]| > 0 && '\n' !in texts[l]
    {
      RecordTextRoundTrip(lines[l]);
    }
    JoinLinesNoEmptyLine(texts);
  }

  /** A final line feed does not change what a record reads as. */
  lemma LastBlock(text: string, end: string)
    requires end in {"", "\n"}
    ensures Pairs(text + end) == Pairs(text)
  {
    if end == "\n" {
      WordsAroundSpace(text, '\n', "");
      assert text + end == text + ['\n'] + "";
      assert Words("") == [];
      assert Words(text + end) == Words(text);
    } else {
      assert text + end == text;
    }
  }

  /** The blocks of a laid-out batch are its records' texts, each reading
      as that record's pairs. */
  lemma LaidOutBlocks(layout: seq<seq<seq<(Key, string)>>>, finalLineFeed: bool)
    requires |layout| >= 1
    requires forall r, l :: 0 <= r < |layout| && 0 <= l < |layout[r]| ==>
               |layout[r][l]| > 0 && PlainPairs(layout[r][l])
    ensures |Batch.Blocks(LaidOutBatchText(layout, finalLineFeed))| == |layout|
    ensures forall i :: 0 <= i < |layout| ==>
              Pairs(Batch.Blocks(LaidOutBatchText(layout, finalLineFeed))[i]) == Ok(Flatten(layout[i]))
  {
    var n := |layout|;
    var texts := RecordTexts(layout);
    var end := if finalLineFeed then "\n" else "";
    forall i | 0 <= i < n
      ensures NoEmptyLine(texts[i]) && Pairs(texts[i]) == Ok(Flatten(layout[i]))
    {
      LaidOutRecordRoundTrip(layout[i]);
      LaidOutRecordNoEmptyLine(layout[i]);
    }
    Batch.BlocksOfRecords(texts, end);
    var blocks := Batch.Blocks(LaidOutBatchText(layout, finalLineFeed));
    assert blocks == texts[..n - 1] + [texts[n - 1] + end];
    LastBlock(texts[n - 1], end);
    forall i | 0 <= i < n
      ensures Pairs(blocks[i]) == Ok(Flatten(layout[i]))
    {
      if i < n - 1 {
        assert blocks[i] == texts[i];
      }
    }
  }

  /** Reading a laid-out batch gives one record per laid-out record, under
      either policy, whether or not the text ends with a line feed. */
  lemma LaidOutBatchRoundTrip(layout: seq<seq<seq<(Key, string)>>>, finalLineFeed: bool)
    requires |layout| >= 1
    requires forall r, l :: 0 <= r < |layout| && 0 <= l < |layout[r]| ==>
               |layout[r][l]| > 0 && PlainPairs(layout[r][l])
    ensures Batch.Parse(LaidOutBatchText(layout, finalLineFeed), AssemblePassport) ==
              Ok(PermissiveRecords(FlattenAll(layout)))
    ensures Batch.Parse(LaidOutBatchText(layout, finalLineFeed), AssembleStrictPassport) ==
              Ok(StrictRecords(FlattenAll(layout)))
  {
    var text := LaidOutBatchText(layout, finalLineFeed);
    var blocks := Batch.Blocks(text);
    LaidOutBlocks(layout, finalLineFeed);
    forall i | 0 <= i < |layout|
      ensures AssemblePassport(blocks[i]) == Ok(PermissiveRecords(FlattenAll(layout))[i])
      ensures AssembleStrictPassport(blocks[i]) == Ok(StrictRecords(FlattenAll(layout))[i])
    {
    }
    var loose := Batch.Parse(text, AssemblePassport);
    assert loose.Ok? && |loose.value| == |layout|;
    assert loose.value == PermissiveRecords(FlattenAll(layout));
    var strict := Batch.Parse(text, AssembleStrictPassport);
    assert strict.Ok? && |strict.value| == |layout|;
    assert strict.value == StrictRecords(FlattenAll(layout));
  }

  /** Both policies read the same input the same way: either both batches
      assemble, with one record per block, or both fail; and the strict
      policy never counts more passports than the permissive one. */
  lemma StrictCountAtMostPermissive(raw: string)
    ensures Batch.Parse(raw, AssemblePassport).Ok? <==> Batch.Parse(raw, AssembleStrictPassport).Ok?
    ensures Batch.Parse(raw, AssemblePassport).Ok? ==>
              var loose := Batch.Parse(raw, AssemblePassport).value;
              var strict := Batch.Parse(raw, AssembleStrictPassport).value;
              && |loose| == |strict| == |Batch.Blocks(raw)|
              && Batch.NumberOfValid(strict, IsValidStrictPassport)
                 <= Batch.NumberOfValid(loose, IsValidPassport)
                 <= |Batch.Blocks(raw)|
  {
    var blocks := Batch.Blocks(raw);
    var loose := Batch.Parse(raw, AssemblePassport);
    var strict := Batch.Parse(raw, AssembleStrictPassport);
    assert forall i :: 0 <= i < |blocks| ==>
             (AssemblePassport(blocks[i]).Ok? <==> AssembleStrictPassport(blocks[i]).Ok?);
    if loose.Ok? {
      forall i | 0 <= i < |blocks|
        ensures IsValidStrictPassport(strict.value[i]) ==> IsValidPassport(loose.value[i])
      {
        StrictImpliesPermissive(Pairs(blocks[i]).value);
      }
      Batch.NumberOfValidMonotone(strict.value, loose.value, IsValidStrictPassport, IsValidPassport);
    }
  }

  /** Empty input is one empty record, which no policy accepts. */
  lemma EmptyInputIsOneInvalidPassport()
    ensures Batch.Parse("", AssemblePassport) == Ok([EmptyPassport])
    ensures Batch.Parse("", AssembleStrictPassport) == Ok([EmptyStrictPassport])
    ensures Batch.NumberOfValid([EmptyPassport], IsValidPassport) == 0
    ensures Batch.NumberOfValid([EmptyStrictPassport], IsValidStrictPassport) == 0
  {
    Batch.EmptyInputIsOneBlock();
    assert Words("") == [];
    assert Pairs("") == Ok([]);
    assert AssemblePassport("") == Ok(EmptyPassport);
    assert AssembleStrictPassport("") == Ok(EmptyStrictPassport);
    var loose := MapResults([""], AssemblePassport);
    assert loose.Ok? && loose.value[0] == EmptyPassport;
    assert loose.value == [EmptyPassport];
    var strict := MapResults([""], AssembleStrictPassport);
    assert strict.Ok? && strict.value[0] == EmptyStrictPassport;
    assert strict.value == [EmptyStrictPassport];
  }

  /** A key given with an empty value (`byr:`) leaves its field empty, so the
      permissive record is invalid. */
  lemma EmptyValueInvalidatesPermissive(pairs: seq<(Key, string)>, i: nat, k: Key)
    requires i < |pairs| && pairs[i] == (k, "") && k != Cid
    requires forall j :: i < j < |pairs| ==> pairs[j].0 != k
    ensures !FillPassport(EmptyPassport, pairs).IsValid()
  {
    var later := pairs[i + 1..];
    assert !Mentions(later, k) by {
      forall j | 0 <= j < |later|
        ensures later[j].0 != k
      {
        assert later[j] == pairs[i + 1 + j];
      }
    }
    FillLastWriteWins(EmptyPassport, pairs, k, i);
  }

  /** `cid` never affects either policy. */
  lemma CountryIdIgnored(p: Passport, s: StrictPassport, v: string)
    ensures p.Set(Cid, v).IsValid() == p.IsValid()
    ensures s.Set(Cid, v).IsValid() == s.IsValid()
  {
  }
}
