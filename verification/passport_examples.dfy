/** The sample batches of the passport puzzle, each record written as its
    pairs and, line by line, as the tests lay it out, with the number of
    passports each policy accepts in them. */
module PassportExamples {
  import opened Text
  import opened Fields
  import Batch
  import opened Passports

  //----------------------------------------------------------------------
  // The samples
  //----------------------------------------------------------------------

  /** Two complete records, one without `hgt`, one without `byr`. */
  const FirstSample: seq<seq<(Key, string)>> := [
    [(Ecl, "gry"), (Pid, "860033327"), (Eyr, "2020"), (Hcl, "#fffffd"),
     (Byr, "1937"), (Iyr, "2017"), (Cid, "147"), (Hgt, "183cm")],
    [(Iyr, "2013"), (Ecl, "amb"), (Cid, "350"), (Eyr, "2023"), (Pid, "028048884"),
     (Hcl, "#cfa07d"), (Byr, "1929")],
    [(Hcl, "#ae17e1"), (Iyr, "2013"), (Eyr, "2024"), (Ecl, "brn"), (Pid, "760753108"),
     (Byr, "1931"), (Hgt, "179cm")],
    [(Hcl, "#cfa07d"), (Eyr, "2025"), (Pid, "166559648"), (Iyr, "2011"), (Ecl, "brn"),
     (Hgt, "59in")]
  ]

  /** Four complete records, each with some field its rule rejects. */
  const RejectedSample: seq<seq<(Key, string)>> := [
    [(Eyr, "1972"), (Cid, "100"), (Hcl, "#18171d"), (Ecl, "amb"), (Hgt, "170"),
     (Pid, "186cm"), (Iyr, "2018"), (Byr, "1926")],
    [(Iyr, "2019"), (Hcl, "#602927"), (Eyr, "1967"), (Hgt, "170cm"), (Ecl, "grn"),
     (Pid, "012533040"), (Byr, "1946")],
    [(Hcl, "dab227"), (Iyr, "2012"), (Ecl, "brn"), (Hgt, "182cm"), (Pid, "021572410"),
     (Eyr, "2020"), (Byr, "1992"), (Cid, "277")],
    [(Hgt, "59cm"), (Ecl, "zzz"), (Eyr, "2038"), (Hcl, "74454a"), (Iyr, "2023"),
     (Pid, "3556412378"), (Byr, "2007")]
  ]

  /** Four records whose every field passes its rule. */
  const AcceptedSample: seq<seq<(Key, string)>> := [
    [(Pid, "087499704"), (Hgt, "74in"), (Ecl, "grn"), (Iyr, "2012"), (Eyr, "2030"),
     (Byr, "1980"), (Hcl, "#623a2f")],
    [(Eyr, "2029"), (Ecl, "blu"), (Cid, "129"), (Byr, "1989"), (Iyr, "2014"),
     (Pid, "896056539"), (Hcl, "#a97842"), (Hgt, "165cm")],
    [(Hcl, "#888785"), (Hgt, "164cm"), (Byr, "2001"), (Iyr, "2015"), (Cid, "88"),
     (Pid, "545766238"), (Ecl, "hzl"), (Eyr, "2022")],
    [(Iyr, "2010"), (Hgt, "158cm"), (Hcl, "#b6652a"), (Ecl, "blu"), (Byr, "1944"),
     (Eyr, "2021"), (Pid, "093154719")]
  ]

  /** The first sample as the test lays it out, line by line; the text ends
      with a line feed. */
  const FirstLayout: seq<seq<seq<(Key, string)>>> := [
    [[(Ecl, "gry"), (Pid, "860033327"), (Eyr, "2020"), (Hcl, "#fffffd")],
     [(Byr, "1937"), (Iyr, "2017"), (Cid, "147"), (Hgt, "183cm")]],
    [[(Iyr, "2013"), (Ecl, "amb"), (Cid, "350"), (Eyr, "2023"), (Pid, "028048884")],
     [(Hcl, "#cfa07d"), (Byr, "1929")]],
    [[(Hcl, "#ae17e1"), (Iyr, "2013")],
     [(Eyr, "2024")],
     [(Ecl, "brn"), (Pid, "760753108"), (Byr, "1931")],
     [(Hgt, "179cm")]],
    [[(Hcl, "#cfa07d"), (Eyr, "2025"), (Pid, "166559648")],
     [(Iyr, "2011"), (Ecl, "brn"), (Hgt, "59in")]]
  ]

  /** The rejected sample as the test lays it out; no final line feed. */
  const RejectedLayout: seq<seq<seq<(Key, string)>>> := [
    [[(Eyr, "1972"), (Cid, "100")],
     [(Hcl, "#18171d"), (Ecl, "amb"), (Hgt, "170"), (Pid, "186cm"), (Iyr, "2018"), (Byr, "1926")]],
    [[(Iyr, "2019")],
     [(Hcl, "#602927"), (Eyr, "1967"), (Hgt, "170cm")],
     [(Ecl, "grn"), (Pid, "012533040"), (Byr, "1946")]],
    [[(Hcl, "dab227"), (Iyr, "2012")],
     [(Ecl, "brn"), (Hgt, "182cm"), (Pid, "021572410"), (Eyr, "2020"), (Byr, "1992"), (Cid, "277")]],
    [[(Hgt, "59cm"), (Ecl, "zzz")],
     [(Eyr, "2038"), (Hcl, "74454a"), (Iyr, "2023")],
     [(Pid, "3556412378"), (Byr, "2007")]]
  ]

  /** The accepted sample as the test lays it out; no final line feed. */
  const AcceptedLayout: seq<seq<seq<(Key, string)>>> := [
    [[(Pid, "087499704"), (Hgt, "74in"), (Ecl, "grn"), (Iyr, "2012"), (Eyr, "2030"), (Byr, "1980")],
     [(Hcl, "#623a2f")]],
    [[(Eyr, "2029"), (Ecl, "blu"), (Cid, "129"), (Byr, "1989")],
     [(Iyr, "2014"), (Pid, "896056539"), (Hcl, "#a97842"), (Hgt, "165cm")]],
    [[(Hcl, "#888785")],
     [(Hgt, "164cm"), (Byr, "2001"), (Iyr, "2015"), (Cid, "88")],
     [(Pid, "545766238"), (Ecl, "hzl")],
     [(Eyr, "2022")]],
    [[(Iyr, "2010"), (Hgt, "158cm"), (Hcl, "#b6652a"), (Ecl, "blu"), (Byr, "1944"), (Eyr, "2021"),
      (Pid, "093154719")]]
  ]

  /** The test's text of the first sample reads as its four records. */
  lemma FirstSampleLaidOut()
    ensures Batch.Parse(LaidOutBatchText(FirstLayout, true), AssemblePassport) == Ok(PermissiveRecords(FirstSample))
  {
    FirstLayoutShape();
    LaidOutSampleRoundTrip(FirstLayout, FirstSample, true);
  }

  lemma FirstLayoutShape()
    ensures FlattenAll(FirstLayout) == FirstSample
    ensures NoEmptyLines(FirstLayout)
    ensures SampleValues(FirstSample)
  {
    FirstLayoutFlattens();
    FirstLayoutLines();
    FirstSampleValues();
  }

  lemma FirstLayoutFlattens()
    ensures FlattenAll(FirstLayout) == FirstSample
  {
    assert Flatten(FirstLayout[0]) == FirstSample[0];
    assert Flatten(FirstLayout[1]) == FirstSample[1];
    assert Flatten(FirstLayout[2]) == FirstSample[2];
    assert Flatten(FirstLayout[3]) == FirstSample[3];
  }

  lemma FirstLayoutLines()
    ensures NoEmptyLines(FirstLayout)
  {
  }

  lemma FirstSampleValues()
    ensures SampleValues(FirstSample)
  {
    assert forall i :: 0 <= i < |FirstSample[0]| ==> SampleChars(FirstSample[0][i].1);
    assert forall i :: 0 <= i < |FirstSample[1]| ==> SampleChars(FirstSample[1][i].1);
    assert forall i :: 0 <= i < |FirstSample[2]| ==> SampleChars(FirstSample[2][i].1);
    assert forall i :: 0 <= i < |FirstSample[3]| ==> SampleChars(FirstSample[3][i].1);
  }

  /** The test's text of the rejected sample reads as its four records. */
  lemma RejectedSampleLaidOut()
    ensures Batch.Parse(LaidOutBatchText(RejectedLayout, false), AssembleStrictPassport) ==
              Ok(StrictRecords(RejectedSample))
  {
    RejectedLayoutShape();
    LaidOutSampleRoundTrip(RejectedLayout, RejectedSample, false);
  }

  lemma RejectedLayoutShape()
    ensures FlattenAll(RejectedLayout) == RejectedSample
    ensures NoEmptyLines(RejectedLayout)
    ensures SampleValues(RejectedSample)
  {
    RejectedLayoutFlattens();
    RejectedLayoutLines();
    RejectedSampleValues();
  }

  lemma RejectedLayoutFlattens()
    ensures FlattenAll(RejectedLayout) == RejectedSample
  {
    assert Flatten(RejectedLayout[0]) == RejectedSample[0];
    assert Flatten(RejectedLayout[1]) == RejectedSample[1];
    assert Flatten(RejectedLayout[2]) == RejectedSample[2];
    assert Flatten(RejectedLayout[3]) == RejectedSample[3];
  }

  lemma RejectedLayoutLines()
    ensures NoEmptyLines(RejectedLayout)
  {
  }

  lemma RejectedSampleValues()
    ensures SampleValues(RejectedSample)
  {
    assert forall i :: 0 <= i < |RejectedSample[0]| ==> SampleChars(RejectedSample[0][i].1);
    assert forall i :: 0 <= i < |RejectedSample[1]| ==> SampleChars(RejectedSample[1][i].1);
    assert forall i :: 0 <= i < |RejectedSample[2]| ==> SampleChars(RejectedSample[2][i].1);
    assert forall i :: 0 <= i < |RejectedSample[3]| ==> SampleChars(RejectedSample[3][i].1);
  }

  /** The test's text of the accepted sample reads as its four records. */
  lemma AcceptedSampleLaidOut()
    ensures Batch.Parse(LaidOutBatchText(AcceptedLayout, false), AssembleStrictPassport) ==
              Ok(StrictRecords(AcceptedSample))
  {
    AcceptedLayoutShape();
    LaidOutSampleRoundTrip(AcceptedLayout, AcceptedSample, false);
  }

  lemma AcceptedLayoutShape()
    ensures FlattenAll(AcceptedLayout) == AcceptedSample
    ensures NoEmptyLines(AcceptedLayout)
    ensures SampleValues(AcceptedSample)
  {
    AcceptedLayoutFlattens();
    AcceptedLayoutLines();
    AcceptedSampleValues();
  }

  lemma AcceptedLayoutFlattens()
    ensures FlattenAll(AcceptedLayout) == AcceptedSample
  {
    assert Flatten(AcceptedLayout[0]) == AcceptedSample[0];
    assert Flatten(AcceptedLayout[1]) == AcceptedSample[1];
    assert Flatten(AcceptedLayout[2]) == AcceptedSample[2];
    assert Flatten(AcceptedLayout[3]) == AcceptedSample[3];
  }

  lemma AcceptedLayoutLines()
    ensures NoEmptyLines(AcceptedLayout)
  {
  }

  lemma AcceptedSampleValues()
    ensures SampleValues(AcceptedSample)
  {
    assert forall i :: 0 <= i < |AcceptedSample[0]| ==> SampleChars(AcceptedSample[0][i].1);
    assert forall i :: 0 <= i < |AcceptedSample[1]| ==> SampleChars(AcceptedSample[1][i].1);
    assert forall i :: 0 <= i < |AcceptedSample[2]| ==> SampleChars(AcceptedSample[2][i].1);
    assert forall i :: 0 <= i < |AcceptedSample[3]| ==> SampleChars(AcceptedSample[3][i].1);
  }

  //----------------------------------------------------------------------
  // The counts
  //----------------------------------------------------------------------

  /** The first sample, written one record per line, reads back as its four
      records, of which the permissive policy accepts the first and the
      third. */
  lemma FirstSampleCount()
    ensures Batch.Parse(BatchText(FirstSample), AssemblePassport) == Ok(PermissiveRecords(FirstSample))
    ensures Batch.NumberOfValid(PermissiveRecords(FirstSample), IsValidPassport) == 2
  {
    SampleRoundTrip(FirstSample);
    FirstSampleRecords();
    FirstSampleTally(PermissiveRecords(FirstSample));
  }

  lemma FirstSampleRecords()
    ensures PermissiveRecords(FirstSample) == [
      Passport("1937", "2017", "2020", "183cm", "#fffffd", "gry", "860033327", "147"),
      Passport("1929", "2013", "2023", "", "#cfa07d", "amb", "028048884", "350"),
      Passport("1931", "2013", "2024", "179cm", "#ae17e1", "brn", "760753108", ""),
      Passport("", "2011", "2025", "59in", "#cfa07d", "brn", "166559648", "")
    ]
  {
  }

  lemma FirstSampleTally(records: seq<Passport>)
    requires records == [
      Passport("1937", "2017", "2020", "183cm", "#fffffd", "gry", "860033327", "147"),
      Passport("1929", "2013", "2023", "", "#cfa07d", "amb", "028048884", "350"),
      Passport("1931", "2013", "2024", "179cm", "#ae17e1", "brn", "760753108", ""),
      Passport("", "2011", "2025", "59in", "#cfa07d", "brn", "166559648", "")
    ]
    ensures Batch.NumberOfValid(records, IsValidPassport) == 2
  {
    CountOfFour(records, IsValidPassport);
  }

  /** The rejected sample, written one record per line, reads back as its
      four records, none of which the strict policy accepts: the first two expire before 2020, the third's
      hair colour lacks its `#`, the fourth's eye colour is no known code. */
  lemma RejectedSampleCount()
    ensures Batch.Parse(BatchText(RejectedSample), AssembleStrictPassport) == Ok(StrictRecords(RejectedSample))
    ensures Batch.NumberOfValid(StrictRecords(RejectedSample), IsValidStrictPassport) == 0
  {
    SampleRoundTrip(RejectedSample);
    RejectedFirst();
    RejectedSecond();
    RejectedThird();
    RejectedFourth();
    StrictTally(RejectedSample);
  }

  lemma RejectedFirst()
    ensures !FillStrictPassport(EmptyStrictPassport, RejectedSample[0]).IsValid()
  {
    RejectedFirstReading();
    ExpiredYears();
    RejectedBy(RejectedSample[0], Eyr);
  }

  lemma RejectedFirstReading()
    ensures FillPassport(EmptyPassport, RejectedSample[0]).eyr == "1972"
  {
  }

  lemma RejectedSecond()
    ensures !FillStrictPassport(EmptyStrictPassport, RejectedSample[1]).IsValid()
  {
    RejectedSecondReading();
    ExpiredYears();
    RejectedBy(RejectedSample[1], Eyr);
  }

  lemma RejectedSecondReading()
    ensures FillPassport(EmptyPassport, RejectedSample[1]).eyr == "1967"
  {
  }

  lemma ExpiredYears()
    ensures !FieldAccepts(Eyr, "1972") && !FieldAccepts(Eyr, "1967")
  {
    assert DecimalString(1972) == "1972";
    assert DecimalString(1967) == "1967";
    YearAccepts("1972", 1972);
    YearAccepts("1967", 1967);
  }

  lemma RejectedThird()
    ensures !FillStrictPassport(EmptyStrictPassport, RejectedSample[2]).IsValid()
  {
    RejectedThirdReading();
    RejectedBy(RejectedSample[2], Hcl);
  }

  lemma RejectedThirdReading()
    ensures FillPassport(EmptyPassport, RejectedSample[2]).hcl == "dab227"
  {
  }

  lemma RejectedFourth()
    ensures !FillStrictPassport(EmptyStrictPassport, RejectedSample[3]).IsValid()
  {
    RejectedFourthReading();
    RejectedBy(RejectedSample[3], Ecl);
  }

  lemma RejectedFourthReading()
    ensures FillPassport(EmptyPassport, RejectedSample[3]).ecl == "zzz"
  {
  }

  /** The accepted sample, written one record per line, reads back as its
      four records, all of which the strict policy accepts. */
  lemma AcceptedSampleCount()
    ensures Batch.Parse(BatchText(AcceptedSample), AssembleStrictPassport) == Ok(StrictRecords(AcceptedSample))
    ensures Batch.NumberOfValid(StrictRecords(AcceptedSample), IsValidStrictPassport) == 4
  {
    SampleRoundTrip(AcceptedSample);
    AcceptedFirst();
    AcceptedSecond();
    AcceptedThird();
    AcceptedFourth();
    StrictTally(AcceptedSample);
  }

  lemma AcceptedFirst()
    ensures FillStrictPassport(EmptyStrictPassport, AcceptedSample[0]).IsValid()
  {
    var p := Passport("1980", "2012", "2030", "74in", "#623a2f", "grn", "087499704", "");
    AcceptedFirstReading();
    AcceptedFirstYears();
    AcceptedFirstExpiry();
    AcceptedFirstCodes();
    Accepted(AcceptedSample[0], p, 1980, 2012, 2030, 74, "in");
  }

  lemma AcceptedFirstReading()
    ensures FillPassport(EmptyPassport, AcceptedSample[0]) ==
            Passport("1980", "2012", "2030", "74in", "#623a2f", "grn", "087499704", "")
  {
  }

  lemma AcceptedFirstYears()
    ensures DecimalString(1980) == "1980" && DecimalString(2012) == "2012"
  {
  }

  lemma AcceptedFirstExpiry()
    ensures DecimalString(2030) == "2030" && DecimalString(74) + "in" == "74in"
  {
  }

  lemma AcceptedFirstCodes()
    ensures FieldAccepts(Hcl, "#623a2f") && FieldAccepts(Ecl, "grn") && FieldAccepts(Pid, "087499704")
  {
  }

  lemma AcceptedSecond()
    ensures FillStrictPassport(EmptyStrictPassport, AcceptedSample[1]).IsValid()
  {
    var p := Passport("1989", "2014", "2029", "165cm", "#a97842", "blu", "896056539", "129");
    AcceptedSecondReading();
    AcceptedSecondYears();
    AcceptedSecondExpiry();
    AcceptedSecondCodes();
    Accepted(AcceptedSample[1], p, 1989, 2014, 2029, 165, "cm");
  }

  lemma AcceptedSecondReading()
    ensures FillPassport(EmptyPassport, AcceptedSample[1]) ==
            Passport("1989", "2014", "2029", "165cm", "#a97842", "blu", "896056539", "129")
  {
  }

  lemma AcceptedSecondYears()
    ensures DecimalString(1989) == "1989" && DecimalString(2014) == "2014"
  {
  }

  lemma AcceptedSecondExpiry()
    ensures DecimalString(2029) == "2029" && DecimalString(165) + "cm" == "165cm"
  {
  }

  lemma AcceptedSecondCodes()
    ensures FieldAccepts(Hcl, "#a97842") && FieldAccepts(Ecl, "blu") && FieldAccepts(Pid, "896056539")
  {
  }

  lemma AcceptedThird()
    ensures FillStrictPassport(EmptyStrictPassport, AcceptedSample[2]).IsValid()
  {
    var p := Passport("2001", "2015", "2022", "164cm", "#888785", "hzl", "545766238", "88");
    AcceptedThirdReading();
    AcceptedThirdYears();
    AcceptedThirdExpiry();
    AcceptedThirdCodes();
    Accepted(AcceptedSample[2], p, 2001, 2015, 2022, 164, "cm");
  }

  lemma AcceptedThirdReading()
    ensures FillPassport(EmptyPassport, AcceptedSample[2]) ==
            Passport("2001", "2015", "2022", "164cm", "#888785", "hzl", "545766238", "88")
  {
  }

  lemma AcceptedThirdYears()
    ensures DecimalString(2001) == "2001" && DecimalString(2015) == "2015"
  {
  }

  lemma AcceptedThirdExpiry()
    ensures DecimalString(2022) == "2022" && DecimalString(164) + "cm" == "164cm"
  {
  }

  lemma AcceptedThirdCodes()
    ensures FieldAccepts(Hcl, "#888785") && FieldAccepts(Ecl, "hzl") && FieldAccepts(Pid, "545766238")
  {
  }

  lemma AcceptedFourth()
    ensures FillStrictPassport(EmptyStrictPassport, AcceptedSample[3]).IsValid()
  {
    var p := Passport("1944", "2010", "2021", "158cm", "#b6652a", "blu", "093154719", "");
    AcceptedFourthReading();
    AcceptedFourthYears();
    AcceptedFourthExpiry();
    AcceptedFourthCodes();
    Accepted(AcceptedSample[3], p, 1944, 2010, 2021, 158, "cm");
  }

  lemma AcceptedFourthReading()
    ensures FillPassport(EmptyPassport, AcceptedSample[3]) ==
            Passport("1944", "2010", "2021", "158cm", "#b6652a", "blu", "093154719", "")
  {
  }

  lemma AcceptedFourthYears()
    ensures DecimalString(1944) == "1944" && DecimalString(2010) == "2010"
  {
  }

  lemma AcceptedFourthExpiry()
    ensures DecimalString(2021) == "2021" && DecimalString(158) + "cm" == "158cm"
  {
  }

  lemma AcceptedFourthCodes()
    ensures FieldAccepts(Hcl, "#b6652a") && FieldAccepts(Ecl, "blu") && FieldAccepts(Pid, "093154719")
  {
  }

  //----------------------------------------------------------------------
  // The tests' own texts
  //----------------------------------------------------------------------

  /** `example`: the first sample, laid out as the test writes it, holds two
      passports the permissive policy accepts. */
  lemma FirstSampleTest()
    ensures var r := Batch.Parse(LaidOutBatchText(FirstLayout, true), AssemblePassport);
            r.Ok? && |r.value| == 4 && Batch.NumberOfValid(r.value, IsValidPassport) == 2
  {
    FirstSampleLaidOut();
    FirstSampleCount();
  }

  /** `invalid_strict_examples`: the rejected sample, laid out as the test
      writes it, holds no passport the strict policy accepts. */
  lemma RejectedSampleTest()
    ensures var r := Batch.Parse(LaidOutBatchText(RejectedLayout, false), AssembleStrictPassport);
            r.Ok? && |r.value| == 4 && Batch.NumberOfValid(r.value, IsValidStrictPassport) == 0
  {
    RejectedSampleLaidOut();
    RejectedSampleCount();
  }

  /** `valid_strict_examples`: the accepted sample, laid out as the test
      writes it, holds four passports the strict policy accepts. */
  lemma AcceptedSampleTest()
    ensures var r := Batch.Parse(LaidOutBatchText(AcceptedLayout, false), AssembleStrictPassport);
            r.Ok? && |r.value| == 4 && Batch.NumberOfValid(r.value, IsValidStrictPassport) == 4
  {
    AcceptedSampleLaidOut();
    AcceptedSampleCount();
  }

  //----------------------------------------------------------------------
  // Helpers
  //----------------------------------------------------------------------

  /** Digits, lower-case letters and `#`: every sample value is made of these. */
  predicate SampleChars(v: string)
  {
    forall i :: 0 <= i < |v| ==> '0' <= v[i] <= '9' || 'a' <= v[i] <= 'z' || v[i] == '#'
  }

  lemma SampleCharsArePlain(pairs: seq<(Key, string)>)
    requires forall i :: 0 <= i < |pairs| ==> SampleChars(pairs[i].1)
    ensures PlainPairs(pairs)
  {
    forall i | 0 <= i < |pairs|
      ensures PlainValue(pairs[i].1)
    {
      var v := pairs[i].1;
      assert forall j :: 0 <= j < |v| ==> v[j] != ':';
    }
  }

  /** Every record of a four-record sample can be written as text. */
  lemma WrittenPlainly(batch: seq<seq<(Key, string)>>)
    requires |batch| == 4
    requires forall r, i :: 0 <= r < 4 && 0 <= i < |batch[r]| ==> SampleChars(batch[r][i].1)
    ensures forall r :: 0 <= r < |batch| ==> PlainPairs(batch[r])
  {
    forall r | 0 <= r < 4
      ensures PlainPairs(batch[r])
    {
      SampleCharsArePlain(batch[r]);
    }
  }

  /** A four-record sample reads back as its records. */
  lemma SampleRoundTrip(batch: seq<seq<(Key, string)>>)
    requires |batch| == 4
    requires forall r, i :: 0 <= r < 4 && 0 <= i < |batch[r]| ==> SampleChars(batch[r][i].1)
    ensures Batch.Parse(BatchText(batch), AssemblePassport) == Ok(PermissiveRecords(batch))
    ensures Batch.Parse(BatchText(batch), AssembleStrictPassport) == Ok(StrictRecords(batch))
  {
    WrittenPlainly(batch);
    BatchTextRoundTrip(batch);
  }

  /** Every line of a laid-out record holds at least one pair. */
  predicate NoEmptyLines(layout: seq<seq<seq<(Key, string)>>>)
  {
    forall r, l :: 0 <= r < |layout| && 0 <= l < |layout[r]| ==> |layout[r][l]| > 0
  }

  /** Every value of every record is made of sample characters. */
  predicate SampleValues(batch: seq<seq<(Key, string)>>)
  {
    forall r, i :: 0 <= r < |batch| && 0 <= i < |batch[r]| ==> SampleChars(batch[r][i].1)
  }

  /** A four-record sample laid out over lines reads back as its records. */
  lemma LaidOutSampleRoundTrip(layout: seq<seq<seq<(Key, string)>>>, batch: seq<seq<(Key, string)>>,
                               finalLineFeed: bool)
    requires |layout| == 4 && FlattenAll(layout) == batch
    requires NoEmptyLines(layout) && SampleValues(batch)
    ensures Batch.Parse(LaidOutBatchText(layout, finalLineFeed), AssemblePassport) == Ok(PermissiveRecords(batch))
    ensures Batch.Parse(LaidOutBatchText(layout, finalLineFeed), AssembleStrictPassport) == Ok(StrictRecords(batch))
  {
    forall r, l | 0 <= r < |layout| && 0 <= l < |layout[r]|
      ensures |layout[r][l]| > 0 && PlainPairs(layout[r][l])
    {
      forall i | 0 <= i < |layout[r][l]|
        ensures SampleChars(layout[r][l][i].1)
      {
        FlattenHolds(layout[r], l, i);
        assert Flatten(layout[r]) == batch[r];
      }
      SampleCharsArePlain(layout[r][l]);
    }
    LaidOutBatchRoundTrip(layout, finalLineFeed);
  }

  /** The strict count of four records, each decided on its own. */
  lemma StrictTally(batch: seq<seq<(Key, string)>>)
    requires |batch| == 4
    ensures Batch.NumberOfValid(StrictRecords(batch), IsValidStrictPassport) ==
              (if FillStrictPassport(EmptyStrictPassport, batch[0]).IsValid() then 1 else 0)
              + (if FillStrictPassport(EmptyStrictPassport, batch[1]).IsValid() then 1 else 0)
              + (if FillStrictPassport(EmptyStrictPassport, batch[2]).IsValid() then 1 else 0)
              + (if FillStrictPassport(EmptyStrictPassport, batch[3]).IsValid() then 1 else 0)
  {
    CountOfFour(StrictRecords(batch), IsValidStrictPassport);
  }

  /** Four records are counted one by one. */
  lemma CountOfFour<R>(records: seq<R>, isValid: R -> bool)
    requires |records| == 4
    ensures Batch.NumberOfValid(records, isValid) ==
              (if isValid(records[0]) then 1 else 0) + (if isValid(records[1]) then 1 else 0)
              + (if isValid(records[2]) then 1 else 0) + (if isValid(records[3]) then 1 else 0)
  {
    var a, b, c, d := [records[0]], [records[1]], [records[2]], [records[3]];
    assert records == a + b + c + d;
    Batch.NumberOfValidAppend(a + b + c, d, isValid);
    Batch.NumberOfValidAppend(a + b, c, isValid);
    Batch.NumberOfValidAppend(a, b, isValid);
  }

  /** The year rules applied to `n` written in decimal. */
  lemma YearAccepts(s: string, n: nat)
    requires DecimalString(n) == s
    ensures FieldAccepts(Byr, s) <==> 1920 <= n <= 2002
    ensures FieldAccepts(Iyr, s) <==> 2010 <= n <= 2020
    ensures FieldAccepts(Eyr, s) <==> 2020 <= n <= 2030
  {
    assert Magnitude(s, true) == s;
    BirthYearValidIff(s);
    IssueYearValidIff(s);
    ExpirationYearValidIff(s);
  }

  /** The height rule applied to `n` written in decimal, followed by a unit. */
  lemma HeightAccepts(s: string, n: nat, unit: string)
    requires DecimalString(n) == s && unit in {"cm", "in"}
    ensures FieldAccepts(Hgt, s + unit) <==>
              (unit == "cm" && 150 <= n <= 193) || (unit == "in" && 59 <= n <= 76)
  {
    var raw := s + unit;
    assert raw[..|raw| - 2] == s && raw[|raw| - 2..] == unit;
    assert Magnitude(s, true) == s;
    HeightValidIff(raw);
  }

  /** A record whose permissive reading is `p`, with every field of `p`
      passing its rule, is accepted by the strict policy. The years and the
      height amount are given as the numbers they spell. */
  lemma Accepted(pairs: seq<(Key, string)>, p: Passport, byr: nat, iyr: nat, eyr: nat, hgt: nat, unit: string)
    requires FillPassport(EmptyPassport, pairs) == p
    requires p.byr == DecimalString(byr) && 1920 <= byr <= 2002
    requires p.iyr == DecimalString(iyr) && 2010 <= iyr <= 2020
    requires p.eyr == DecimalString(eyr) && 2020 <= eyr <= 2030
    requires p.hgt == DecimalString(hgt) + unit
    requires (unit == "cm" && 150 <= hgt <= 193) || (unit == "in" && 59 <= hgt <= 76)
    requires FieldAccepts(Hcl, p.hcl) && FieldAccepts(Ecl, p.ecl) && FieldAccepts(Pid, p.pid)
    ensures FillStrictPassport(EmptyStrictPassport, pairs).IsValid()
  {
    YearAccepts(p.byr, byr);
    YearAccepts(p.iyr, iyr);
    YearAccepts(p.eyr, eyr);
    HeightAccepts(DecimalString(hgt), hgt, unit);
    StrictValidIffFieldsAccept(pairs);
    forall k | Required(k)
      ensures FieldAccepts(k, p.Get(k))
    {
      RequiredKeys(k);
    }
  }

  /** A record one of whose required fields fails its rule is rejected by
      the strict policy. */
  lemma RejectedBy(pairs: seq<(Key, string)>, k: Key)
    requires Required(k) && !FieldAccepts(k, FillPassport(EmptyPassport, pairs).Get(k))
    ensures !FillStrictPassport(EmptyStrictPassport, pairs).IsValid()
  {
    StrictValidIffFieldsAccept(pairs);
  }
}
