/**
 * The users API suite's header fixtures, stated as lemmas about the validator: the
 * positive fixture passes on a typical response, the deliberately failing one
 * reports exactly its three planted failures, an invalid pattern aborts, and
 * a header sent twice is judged by its last value.
 */
module UsersApiScenarios {
  import opened Validation
  import opened Response

  /** The HTTP date pattern, written field by field (like Sat, 22 Apr 2023 03:47:43 GMT). */
  const DatePattern: string :=
    "[A-Za-z]{3}." + "\\s\\d{1,2}" + "\\s[A-Za-z]{3}" + "\\s\\d{4}" + "\\s\\d{2}:\\d{2}:\\d{2}" + "\\s[A-Z]{3}"
  const AgePattern: string := "\\d+"
  /** Deliberately wrong: ages are digits. */
  const WrongAgePattern: string := "[a-z]+"

  const PositiveExpectedHeaders: map<string, string> := map[
    "Content-Type" := "application/json; charset=utf-8",
    "Transfer-Encoding" := "chunked",
    "Connection" := "keep-alive",
    "X-Powered-By" := "Express",
    "Access-Control-Allow-Origin" := "*",
    "Server" := "cloudflare",
    "Date" := DynamicHeaderIndicator + DatePattern,
    "Age" := DynamicHeaderIndicator + AgePattern
  ]

  const DeliberateFailHeaders: map<string, string> := map[
    "Content-Type" := "application/xml",
    "Transfer-Encoding" := "chunked",
    "Connection" := "keep-alive",
    "X-Powered-By" := "Express",
    "Access-Control-Allow-Origin" := "*",
    "Server" := "cloudflare",
    "Missing-Header" := "Faked",
    "Date" := DynamicHeaderIndicator + DatePattern,
    "Age" := DynamicHeaderIndicator + WrongAgePattern
  ]

  const ReceivedDate: string := "Sat, 22 Apr 2023 03:47:43 GMT"
  const ReceivedAge: string := "1858"

  /** A typical response's headers, including one ("Vary") that no fixture mentions. */
  const ReceivedHeaders: map<string, string> := map[
    "Content-Type" := "application/json; charset=utf-8",
    "Transfer-Encoding" := "chunked",
    "Connection" := "keep-alive",
    "X-Powered-By" := "Express",
    "Access-Control-Allow-Origin" := "*",
    "Server" := "cloudflare",
    "Date" := ReceivedDate,
    "Age" := ReceivedAge,
    "Vary" := "Accept-Encoding"
  ]

  /** The fixture patterns contain no indicator, so each is compiled exactly as written. */
  lemma FixturePatternsExtracted()
    ensures ExtractPattern(DynamicHeaderIndicator + DatePattern) == DatePattern
    ensures ExtractPattern(DynamicHeaderIndicator + AgePattern) == AgePattern
    ensures ExtractPattern(DynamicHeaderIndicator + WrongAgePattern) == WrongAgePattern
  {
    AbsentFirstCharNoOccurrence(DynamicHeaderIndicator, DatePattern);
    ExtractPatternStripsPrefix(DatePattern);
    ExtractPatternStripsPrefix(AgePattern);
    ExtractPatternStripsPrefix(WrongAgePattern);
  }

  lemma LiteralEntryMatches(engine: RegexEngine, actual: map<string, string>, name: string, value: string)
    requires name in actual && actual[name] == value
    requires value != [] && value[0] != DynamicHeaderIndicator[0]
    ensures JudgeEntry(engine, actual, name, value) == Match
  {
  }

  lemma PatternEntryMatches(engine: RegexEngine, actual: map<string, string>, name: string, pattern: string)
    requires name in actual && !Occurs(DynamicHeaderIndicator, pattern)
    requires engine.compiles(pattern) && engine.fullMatch(pattern, actual[name])
    ensures JudgeEntry(engine, actual, name, DynamicHeaderIndicator + pattern) == Match
  {
  }

  lemma PositiveFixtureEntriesMatch(engine: RegexEngine)
    requires engine.compiles(DatePattern) && engine.fullMatch(DatePattern, ReceivedDate)
    requires engine.compiles(AgePattern) && engine.fullMatch(AgePattern, ReceivedAge)
    ensures forall k :: k in PositiveExpectedHeaders ==>
              JudgeEntry(engine, ReceivedHeaders, k, PositiveExpectedHeaders[k]) == Match
  {
    var actual, expected := ReceivedHeaders, PositiveExpectedHeaders;
    LiteralEntryMatches(engine, actual, "Content-Type", expected["Content-Type"]);
    LiteralEntryMatches(engine, actual, "Transfer-Encoding", expected["Transfer-Encoding"]);
    LiteralEntryMatches(engine, actual, "Connection", expected["Connection"]);
    LiteralEntryMatches(engine, actual, "X-Powered-By", expected["X-Powered-By"]);
    LiteralEntryMatches(engine, actual, "Access-Control-Allow-Origin", expected["Access-Control-Allow-Origin"]);
    LiteralEntryMatches(engine, actual, "Server", expected["Server"]);
    AbsentFirstCharNoOccurrence(DynamicHeaderIndicator, DatePattern);
    PatternEntryMatches(engine, actual, "Date", DatePattern);
    PatternEntryMatches(engine, actual, "Age", AgePattern);
  }

  /** With a regex engine that behaves as expected on the date and age, the positive fixture passes. */
  lemma PositiveFixturePasses(engine: RegexEngine, r: HeaderCheck)
    requires engine.compiles(DatePattern) && engine.fullMatch(DatePattern, ReceivedDate)
    requires engine.compiles(AgePattern) && engine.fullMatch(AgePattern, ReceivedAge)
    requires Reports(engine, ReceivedHeaders, PositiveExpectedHeaders, r)
    ensures r == Passed
  {
    PositiveFixtureEntriesMatch(engine);
    PassesIffAllMatch(engine, ReceivedHeaders, PositiveExpectedHeaders, r);
  }

  lemma DeliberateFailMatchingEntries(engine: RegexEngine)
    requires engine.compiles(DatePattern) && engine.fullMatch(DatePattern, ReceivedDate)
    ensures forall k :: k in DeliberateFailHeaders && k !in {"Content-Type", "Missing-Header", "Age"} ==>
              JudgeEntry(engine, ReceivedHeaders, k, DeliberateFailHeaders[k]) == Match
  {
    var actual, expected := ReceivedHeaders, DeliberateFailHeaders;
    LiteralEntryMatches(engine, actual, "Transfer-Encoding", expected["Transfer-Encoding"]);
    LiteralEntryMatches(engine, actual, "Connection", expected["Connection"]);
    LiteralEntryMatches(engine, actual, "X-Powered-By", expected["X-Powered-By"]);
    LiteralEntryMatches(engine, actual, "Access-Control-Allow-Origin", expected["Access-Control-Allow-Origin"]);
    LiteralEntryMatches(engine, actual, "Server", expected["Server"]);
    AbsentFirstCharNoOccurrence(DynamicHeaderIndicator, DatePattern);
    PatternEntryMatches(engine, actual, "Date", DatePattern);
  }

  lemma DeliberateFailFailingEntries(engine: RegexEngine)
    requires engine.compiles(WrongAgePattern) && !engine.fullMatch(WrongAgePattern, ReceivedAge)
    ensures JudgeEntry(engine, ReceivedHeaders, "Content-Type", DeliberateFailHeaders["Content-Type"])
            == Fail(ValueMismatch("Content-Type", "application/xml", "application/json; charset=utf-8"))
    ensures JudgeEntry(engine, ReceivedHeaders, "Missing-Header", DeliberateFailHeaders["Missing-Header"])
            == Fail(Missing("Missing-Header"))
    ensures JudgeEntry(engine, ReceivedHeaders, "Age", DeliberateFailHeaders["Age"])
            == Fail(PatternMismatch("Age", WrongAgePattern, ReceivedAge))
  {
    assert !IsPatternValue("application/xml") by {
      assert "application/xml"[..|DynamicHeaderIndicator|][0] == 'a';
    }
    ExtractPatternStripsPrefix(WrongAgePattern);
    assert (DynamicHeaderIndicator + WrongAgePattern)[..|DynamicHeaderIndicator|] == DynamicHeaderIndicator;
  }

  lemma DeliberateFailFailingNames(engine: RegexEngine)
    requires engine.compiles(DatePattern) && engine.fullMatch(DatePattern, ReceivedDate)
    requires engine.compiles(WrongAgePattern) && !engine.fullMatch(WrongAgePattern, ReceivedAge)
    ensures !Aborts(engine, ReceivedHeaders, DeliberateFailHeaders)
    ensures FailingNames(engine, ReceivedHeaders, DeliberateFailHeaders) == {"Content-Type", "Missing-Header", "Age"}
  {
    DeliberateFailMatchingEntries(engine);
    DeliberateFailFailingEntries(engine);
  }

  /**
   * The deliberately failing fixture fails with exactly three records: the
   * wrong content type, the faked missing header and the wrong age pattern.
   */
  lemma DeliberateFailReportsThree(engine: RegexEngine, r: HeaderCheck)
    requires engine.compiles(DatePattern) && engine.fullMatch(DatePattern, ReceivedDate)
    requires engine.compiles(WrongAgePattern) && !engine.fullMatch(WrongAgePattern, ReceivedAge)
    requires Reports(engine, ReceivedHeaders, DeliberateFailHeaders, r)
    ensures r.Failed? && |r.mismatches| == 3
    ensures ValueMismatch("Content-Type", "application/xml", "application/json; charset=utf-8") in r.mismatches
    ensures Missing("Missing-Header") in r.mismatches
    ensures PatternMismatch("Age", WrongAgePattern, ReceivedAge) in r.mismatches
  {
    var actual, expected := ReceivedHeaders, DeliberateFailHeaders;
    DeliberateFailFailingEntries(engine);
    DeliberateFailFailingNames(engine);
    AbortsOnlyOnBadPattern(engine, actual, expected, r);
    assert r.Failed?;
    RecordCountBound(engine, actual, expected, r.mismatches);
    EveryFailureRecorded(engine, actual, expected, r.mismatches, "Content-Type");
    EveryFailureRecorded(engine, actual, expected, r.mismatches, "Missing-Header");
    EveryFailureRecorded(engine, actual, expected, r.mismatches, "Age");
  }

  /** An expected pattern that does not compile aborts the check instead of being recorded. */
  lemma InvalidPatternAborts(engine: RegexEngine, r: HeaderCheck)
    requires !engine.compiles("[")
    requires Reports(engine, ReceivedHeaders, map["Age" := DynamicHeaderIndicator + "["], r)
    ensures r == PatternSyntaxError("Age", "[")
  {
    var expected := map["Age" := DynamicHeaderIndicator + "["];
    ExtractPatternStripsPrefix("[");
    assert (DynamicHeaderIndicator + "[")[..|DynamicHeaderIndicator|] == DynamicHeaderIndicator;
    assert JudgeEntry(engine, ReceivedHeaders, "Age", expected["Age"]) == BadPattern("[");
    AbortsOnlyOnBadPattern(engine, ReceivedHeaders, expected, r);
  }

  /** The same invalid pattern under a header that was not received is only reported missing. */
  lemma MissingHeaderNeverCompiled(engine: RegexEngine, r: HeaderCheck)
    requires Reports(engine, ReceivedHeaders, map["Missing-Header" := DynamicHeaderIndicator + "["], r)
    ensures r == Failed([Missing("Missing-Header")])
  {
    var expected := map["Missing-Header" := DynamicHeaderIndicator + "["];
    assert JudgeEntry(engine, ReceivedHeaders, "Missing-Header", expected["Missing-Header"]) == Fail(Missing("Missing-Header"));
    assert FailingNames(engine, ReceivedHeaders, expected) == {"Missing-Header"};
    AbortsOnlyOnBadPattern(engine, ReceivedHeaders, expected, r);
    RecordCountBound(engine, ReceivedHeaders, expected, r.mismatches);
    EveryFailureRecorded(engine, ReceivedHeaders, expected, r.mismatches, "Missing-Header");
  }

  /**
   * A header the transport sends twice reaches the validator with its last
   * value only: an age first sent as "abc" and then as 1858 passes the age
   * pattern.
   */
  lemma RepeatedHeaderJudgedByLastValue(engine: RegexEngine, r: HeaderCheck)
    requires engine.compiles(AgePattern) && engine.fullMatch(AgePattern, ReceivedAge)
    requires Reports(engine, Flatten([Header("Age", "abc"), Header("Age", ReceivedAge)]),
                     map["Age" := DynamicHeaderIndicator + AgePattern], r)
    ensures r == Passed
  {
    var raw := [Header("Age", "abc"), Header("Age", ReceivedAge)];
    var expected := map["Age" := DynamicHeaderIndicator + AgePattern];
    LastWriteWins(raw);
    assert IsLastOccurrence(raw, 1);
    PatternEntryMatches(engine, Flatten(raw), "Age", AgePattern);
    PassesIffAllMatch(engine, Flatten(raw), expected, r);
  }
}
