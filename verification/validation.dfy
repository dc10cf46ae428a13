/**
 * The response-header validator shared by the API test suites: every expected
 * header is checked against the headers actually received, either by literal
 * equality or, when its value carries the dynamic-header indicator, by a
 * whole-string regular-expression match. Failures are collected, never
 * short-circuited; only a pattern that does not compile aborts the check.
 */
module Validation {

  datatype Option<+T> = None | Some(value: T)

  /** The reserved token that marks an expected header value as a regular expression. */
  const DynamicHeaderIndicator: string := "matchesPattern:"

  /**
   * The regular-expression engine, left uninterpreted: `compiles(p)` says that
   * the pattern source `p` is well-formed, `fullMatch(p, s)` that the whole of
   * `s` (anchored at both ends) is matched by `p`.
   */
  datatype RegexEngine = RegexEngine(compiles: string -> bool, fullMatch: (string, string) -> bool)

  /** One failed expected header. */
  datatype Mismatch =
    | Missing(name: string)
    | PatternMismatch(name: string, pattern: string, actual: string)
    | ValueMismatch(name: string, expected: string, actual: string)

  /** What checking one expected entry yields. */
  datatype Verdict = Match | Fail(mismatch: Mismatch) | BadPattern(pattern: string)

  /**
   * How a whole header check ends: it passes, it fails with the collected
   * mismatches, or it aborts because the pattern of entry `name` is invalid.
   */
  datatype HeaderCheck =
    | Passed
    | Failed(mismatches: seq<Mismatch>)
    | PatternSyntaxError(name: string, pattern: string)

  predicate StartsWith(s: string, prefix: string) {
    |prefix| <= |s| && s[..|prefix|] == prefix
  }

  /**
   * An expected value is of pattern kind exactly when it starts with the
   * indicator; such a value is the indicator followed by the rest, so the
   * indicator occurs in it.
   */
  predicate IsPatternValue(expected: string): (b: bool)
    ensures b ==> |DynamicHeaderIndicator| <= |expected|
                  && expected == DynamicHeaderIndicator + expected[|DynamicHeaderIndicator|..]
    ensures b ==> Occurs(DynamicHeaderIndicator, expected)
  {
    StartsWith(expected, DynamicHeaderIndicator)
  }

  /** `t` occurs in `s` starting at position `i`. */
  predicate OccursAt(t: string, s: string, i: nat) {
    i + |t| <= |s| && s[i..i + |t|] == t
  }

  /** `t` occurs somewhere in `s` as a contiguous piece. */
  predicate Occurs(t: string, s: string)
    decreases |s|
  {
    OccursAt(t, s, 0) || (s != [] && Occurs(t, s[1..]))
  }

  /** `Occurs` holds exactly when `t` starts at some position of `s`. */
  lemma {:induction false} OccursSomewhere(t: string, s: string)
    ensures Occurs(t, s) <==> exists i: nat :: OccursAt(t, s, i)
    decreases |s|
  {
    if s != [] {
      OccursSomewhere(t, s[1..]);
      if Occurs(t, s) && !OccursAt(t, s, 0) {
        var j: nat :| OccursAt(t, s[1..], j);
        OccursAtShift(t, s, j);
      }
      if exists i: nat :: OccursAt(t, s, i) {
        var i: nat :| OccursAt(t, s, i);
        if i > 0 {
          OccursAtShift(t, s, i - 1);
        }
      }
    }
  }

  /** A piece whose first character never appears in `s` does not occur in `s`. */
  lemma {:induction false} AbsentFirstCharNoOccurrence(t: string, s: string)
    requires t != [] && t[0] !in s
    ensures !Occurs(t, s)
    decreases |s|
  {
    if s != [] {
      AbsentFirstCharNoOccurrence(t, s[1..]);
    }
  }

  /**
   * `s` with every occurrence of `t` removed, scanning left to right without
   * overlap, as `String.replace(t, "")` does.
   */
  function RemoveAll(s: string, t: string): (r: string)
    requires t != []
    ensures |r| <= |s|
    ensures !Occurs(t, s) ==> r == s
    decreases |s|
  {
    if |s| < |t| then s
    else if s[..|t|] == t then
      RemoveAll(s[|t|..], t)
    else
      [s[0]] + RemoveAll(s[1..], t)
  }

  lemma OccursAtShift(t: string, s: string, j: nat)
    requires s != []
    ensures OccursAt(t, s[1..], j) <==> OccursAt(t, s, j + 1)
  {
    if j + |t| <= |s| - 1 {
      assert s[1..][j..j + |t|] == s[j + 1..j + 1 + |t|];
    }
  }

  lemma RemoveAllAtOccurrence(s: string, t: string)
    requires t != [] && OccursAt(t, s, 0)
    ensures RemoveAll(s, t) == RemoveAll(s[|t|..], t)
  {
    assert s[..|t|] == t;
  }

  lemma RemoveAllPastNonOccurrence(s: string, t: string)
    requires t != [] && |t| < |s| && !OccursAt(t, s, 0)
    ensures RemoveAll(s, t) == [s[0]] + RemoveAll(s[1..], t)
  {
  }

  /** Past a position where `t` does not start, the earlier occurrences of `t` in the tail shift down by one. */
  lemma NoEarlierOccurrenceInTail(s: string, t: string, i: nat)
    requires 0 < i && OccursAt(t, s, i)
    requires forall j: nat :: j < i ==> !OccursAt(t, s, j)
    ensures OccursAt(t, s[1..], i - 1)
    ensures forall j: nat :: j < i - 1 ==> !OccursAt(t, s[1..], j)
  {
    OccursAtShift(t, s, i - 1);
    forall j: nat | j < i - 1 ensures !OccursAt(t, s[1..], j) {
      OccursAtShift(t, s, j);
    }
  }

  lemma ConsPrefix(s: string, i: nat, x: string)
    requires 0 < i <= |s|
    ensures [s[0]] + (s[1..][..i - 1] + x) == s[..i] + x
  {
    assert [s[0]] + s[1..][..i - 1] == s[..i];
  }

  lemma TailSlice(s: string, k: nat)
    requires 1 <= k <= |s|
    ensures s[1..][k - 1..] == s[k..]
  {
  }

  /** One step of `RemoveAll` past a position where `t` does not start, lifted over a known result for the tail. */
  lemma StepPastNonOccurrence(s: string, t: string, i: nat, rest: string)
    requires t != [] && 0 < i && i + |t| <= |s| && !OccursAt(t, s, 0)
    requires rest == RemoveAll(s[1..][i - 1 + |t|..], t)
    requires RemoveAll(s[1..], t) == s[1..][..i - 1] + rest
    ensures RemoveAll(s, t) == s[..i] + RemoveAll(s[i + |t|..], t)
  {
    RemoveAllPastNonOccurrence(s, t);
    TailSlice(s, i + |t|);
    ConsPrefix(s, i, rest);
  }

  /**
   * The first occurrence of `t` is removed and the scan goes on after it:
   * with the no-occurrence case of `RemoveAll`, this fixes the result on
   * every input.
   */
  lemma {:induction false} RemovesLeftmost(s: string, t: string, i: nat)
    requires t != [] && OccursAt(t, s, i)
    requires forall j: nat :: j < i ==> !OccursAt(t, s, j)
    ensures RemoveAll(s, t) == s[..i] + RemoveAll(s[i + |t|..], t)
    decreases i
  {
    if i == 0 {
      RemoveAllAtOccurrence(s, t);
    } else {
      var tail := s[1..];
      NoEarlierOccurrenceInTail(s, t, i);
      RemovesLeftmost(tail, t, i - 1);
      var rest := RemoveAll(tail[i - 1 + |t|..], t);
      assert RemoveAll(tail, t) == tail[..i - 1] + rest;
      StepPastNonOccurrence(s, t, i, rest);
    }
  }

  /**
   * The regular-expression source of a pattern-kind expected value. It is
   * never longer than the value, a pattern-kind value loses at least its
   * leading indicator, and a value without the indicator is kept as it is.
   */
  function ExtractPattern(expected: string): (pattern: string)
    ensures |pattern| <= |expected|
    ensures IsPatternValue(expected) ==> |pattern| <= |expected| - |DynamicHeaderIndicator|
    ensures !Occurs(DynamicHeaderIndicator, expected) ==> pattern == expected
  {
    if IsPatternValue(expected) then
      RemoveAllAtOccurrence(expected, DynamicHeaderIndicator);
      RemoveAll(expected, DynamicHeaderIndicator)
    else
      RemoveAll(expected, DynamicHeaderIndicator)
  }

  /** A leading indicator is dropped and the scan goes on with what follows it. */
  lemma LeadingIndicatorDropped(rest: string)
    ensures ExtractPattern(DynamicHeaderIndicator + rest) == ExtractPattern(rest)
  {
  }

  /** When the indicator is not repeated, extraction is a plain prefix strip. */
  lemma ExtractPatternStripsPrefix(rest: string)
    requires !Occurs(DynamicHeaderIndicator, rest)
    ensures ExtractPattern(DynamicHeaderIndicator + rest) == rest
  {
  }

  /**
   * A repeated indicator is removed as well, so the compiled pattern is not
   * what a one-time prefix strip would give.
   */
  lemma {:induction false} ExtractPatternRemovesEveryIndicator(rest: string)
    requires !Occurs(DynamicHeaderIndicator, rest)
    ensures ExtractPattern(DynamicHeaderIndicator + DynamicHeaderIndicator + rest) == rest
    ensures rest != DynamicHeaderIndicator + rest
  {
    assert DynamicHeaderIndicator + DynamicHeaderIndicator + rest
        == DynamicHeaderIndicator + (DynamicHeaderIndicator + rest);
    LeadingIndicatorDropped(DynamicHeaderIndicator + rest);
    LeadingIndicatorDropped(rest);
    assert |DynamicHeaderIndicator + rest| > |rest|;
  }

  /**
   * Compiles `pattern` and matches the whole of `actual` against it; `None`
   * stands for the syntax error that is logged and rethrown.
   */
  function DynamicValueMatches(engine: RegexEngine, pattern: string, actual: string): (r: Option<bool>)
    ensures r.None? <==> !engine.compiles(pattern)
    ensures r.Some? ==> (r.value <==> engine.fullMatch(pattern, actual))
  {
    if engine.compiles(pattern) then Some(engine.fullMatch(pattern, actual)) else None
  }

  /** The outcome of checking expected entry `name` with expected value `expected`. */
  function JudgeEntry(engine: RegexEngine, actual: map<string, string>, name: string, expected: string): (v: Verdict)
    ensures v.Fail? ==> v.mismatch.name == name
  {
    if name !in actual then Fail(Missing(name))
    else if IsPatternValue(expected) then
      var pattern := ExtractPattern(expected);
      match DynamicValueMatches(engine, pattern, actual[name])
      case None => BadPattern(pattern)
      case Some(true) => Match
      case Some(false) => Fail(PatternMismatch(name, pattern, actual[name]))
    else if expected == actual[name] then Match
    else Fail(ValueMismatch(name, expected, actual[name]))
  }

  /** An absent header is recorded as missing, and no pattern or literal check is done for it. */
  lemma AbsentHeaderIsMissing(engine: RegexEngine, actual: map<string, string>, name: string, expected: string)
    ensures JudgeEntry(engine, actual, name, expected) == Fail(Missing(name)) <==> name !in actual
    ensures name !in actual ==> forall e: RegexEngine, v: string {:trigger JudgeEntry(e, actual, name, v)} ::
              JudgeEntry(e, actual, name, v) == Fail(Missing(name))
  {
  }

  /** Literal kind: a value mismatch carrying both values exactly when they differ. */
  lemma LiteralVerdict(engine: RegexEngine, actual: map<string, string>, name: string, expected: string)
    requires name in actual && !IsPatternValue(expected)
    ensures JudgeEntry(engine, actual, name, expected) == Match <==> expected == actual[name]
    ensures (JudgeEntry(engine, actual, name, expected) == Fail(ValueMismatch(name, expected, actual[name])))
        <==> expected != actual[name]
  {
  }

  /** Pattern kind: an invalid pattern aborts; otherwise a pattern mismatch exactly when the whole value does not match. */
  lemma PatternVerdict(engine: RegexEngine, actual: map<string, string>, name: string, expected: string)
    requires name in actual && IsPatternValue(expected)
    ensures (JudgeEntry(engine, actual, name, expected) == BadPattern(ExtractPattern(expected)))
        <==> !engine.compiles(ExtractPattern(expected))
    ensures (JudgeEntry(engine, actual, name, expected) == Match)
        <==> engine.compiles(ExtractPattern(expected)) && engine.fullMatch(ExtractPattern(expected), actual[name])
    ensures (JudgeEntry(engine, actual, name, expected) == Fail(PatternMismatch(name, ExtractPattern(expected), actual[name])))
        <==> engine.compiles(ExtractPattern(expected)) && !engine.fullMatch(ExtractPattern(expected), actual[name])
  {
  }

  /** The expected entries among `keys` that fail. */
  ghost function FailingAmong(engine: RegexEngine, actual: map<string, string>, expected: map<string, string>,
                              keys: set<string>): set<string>
  {
    set k | k in keys && k in expected && JudgeEntry(engine, actual, k, expected[k]).Fail?
  }

  ghost function FailingNames(engine: RegexEngine, actual: map<string, string>, expected: map<string, string>): set<string> {
    FailingAmong(engine, actual, expected, expected.Keys)
  }

  /** Some expected entry present in the actual headers has a pattern that does not compile. */
  ghost predicate Aborts(engine: RegexEngine, actual: map<string, string>, expected: map<string, string>) {
    exists k :: k in expected && JudgeEntry(engine, actual, k, expected[k]).BadPattern?
  }

  ghost function RecordedNames(records: seq<Mismatch>): set<string> {
    set i | 0 <= i < |records| :: records[i].name
  }

  ghost predicate DistinctNames(records: seq<Mismatch>) {
    forall i, j :: 0 <= i < j < |records| ==> records[i].name != records[j].name
  }

  /** Every record is the verdict of the expected entry it names. */
  ghost predicate RecordsAreVerdicts(engine: RegexEngine, actual: map<string, string>, expected: map<string, string>,
                                     records: seq<Mismatch>)
  {
    forall i :: 0 <= i < |records| ==>
      records[i].name in expected && JudgeEntry(engine, actual, records[i].name, expected[records[i].name]) == Fail(records[i])
  }

  /**
   * `r` is an outcome of checking `expected` against `actual`, whatever the
   * order in which the expected entries are visited.
   */
  ghost predicate Reports(engine: RegexEngine, actual: map<string, string>, expected: map<string, string>, r: HeaderCheck) {
    match r
    case PatternSyntaxError(name, pattern) =>
      name in expected && JudgeEntry(engine, actual, name, expected[name]) == BadPattern(pattern)
    case Passed =>
      !Aborts(engine, actual, expected) && FailingNames(engine, actual, expected) == {}
    case Failed(records) =>
      && !Aborts(engine, actual, expected)
      && records != []
      && RecordedNames(records) == FailingNames(engine, actual, expected)
      && RecordsAreVerdicts(engine, actual, expected, records)
      && DistinctNames(records)
  }

  lemma RecordedNamesSnoc(records: seq<Mismatch>, m: Mismatch)
    ensures RecordedNames(records + [m]) == RecordedNames(records) + {m.name}
  {
    var s := records + [m];
    assert s[|records|].name == m.name;
    forall n | n in RecordedNames(records) ensures n in RecordedNames(s) {
      var i :| 0 <= i < |records| && records[i].name == n;
      assert s[i].name == n;
    }
  }

  /**
   * Checks every expected header against the actual headers, collecting one
   * record per failing entry; fails at the end only if a record was collected,
   * and aborts on the first invalid pattern it reaches.
   */
  method CheckExpectedHeaders(engine: RegexEngine, actual: map<string, string>, expected: map<string, string>)
    returns (r: HeaderCheck)
    ensures Reports(engine, actual, expected, r)
  {
    var incorrectEntries: seq<Mismatch> := [];
    var remaining := expected.Keys;
    ghost var done: set<string> := {};
    while remaining != {}
      invariant done !! remaining && done + remaining == expected.Keys
      invariant forall k :: k in done ==> !JudgeEntry(engine, actual, k, expected[k]).BadPattern?
      invariant RecordedNames(incorrectEntries) == FailingAmong(engine, actual, expected, done)
      invariant RecordsAreVerdicts(engine, actual, expected, incorrectEntries)
      invariant DistinctNames(incorrectEntries)
      decreases remaining
    {
      var name :| name in remaining;
      remaining := remaining - {name};
      ghost var before := incorrectEntries;
      if name !in actual {
        incorrectEntries := incorrectEntries + [Missing(name)];
      } else {
        var actualValue := actual[name];
        var expectedValue := expected[name];
        if IsPatternValue(expectedValue) {
          var pattern := ExtractPattern(expectedValue);
          var matches := DynamicValueMatches(engine, pattern, actualValue);
          if matches.None? {
            return PatternSyntaxError(name, pattern);
          }
          if !matches.value {
            incorrectEntries := incorrectEntries + [PatternMismatch(name, pattern, actualValue)];
          }
        } else if expectedValue != actualValue {
          incorrectEntries := incorrectEntries + [ValueMismatch(name, expectedValue, actualValue)];
        }
      }
      ghost var verdict := JudgeEntry(engine, actual, name, expected[name]);
      if verdict.Fail? {
        RecordedNamesSnoc(before, verdict.mismatch);
        assert name !in RecordedNames(before);
      }
      assert FailingAmong(engine, actual, expected, done + {name})
          == FailingAmong(engine, actual, expected, done) + (if verdict.Fail? then {name} else {});
      done := done + {name};
    }
    if |incorrectEntries| > 0 {
      r := Failed(incorrectEntries);
    } else {
      r := Passed;
    }
  }

  lemma {:induction false} DistinctNamesCount(records: seq<Mismatch>)
    requires DistinctNames(records)
    ensures |RecordedNames(records)| == |records|
  {
    if records != [] {
      var init := records[..|records| - 1];
      var last := records[|records| - 1];
      assert records == init + [last];
      DistinctNamesCount(init);
      RecordedNamesSnoc(init, last);
      assert last.name !in RecordedNames(init);
    }
  }

  lemma {:induction false} SubsetCount(a: set<string>, b: set<string>)
    requires a <= b
    ensures |a| <= |b|
    decreases b
  {
    if a != {} {
      var x :| x in a;
      SubsetCount(a - {x}, b - {x});
    }
  }

  /**
   * No short-circuit, no duplicates: a failed check holds exactly one record
   * per failing expected entry, so never more records than expected entries.
   */
  lemma RecordCountBound(engine: RegexEngine, actual: map<string, string>, expected: map<string, string>,
                         records: seq<Mismatch>)
    requires Reports(engine, actual, expected, Failed(records))
    ensures |records| == |FailingNames(engine, actual, expected)| <= |expected|
  {
    DistinctNamesCount(records);
    SubsetCount(FailingNames(engine, actual, expected), expected.Keys);
  }

  /** Every failing expected entry is recorded, whatever the others do. */
  lemma EveryFailureRecorded(engine: RegexEngine, actual: map<string, string>, expected: map<string, string>,
                             records: seq<Mismatch>, name: string)
    requires Reports(engine, actual, expected, Failed(records))
    requires name in expected && JudgeEntry(engine, actual, name, expected[name]).Fail?
    ensures JudgeEntry(engine, actual, name, expected[name]).mismatch in records
  {
    assert name in FailingNames(engine, actual, expected);
    var i :| 0 <= i < |records| && records[i].name == name;
  }

  /** The check aborts exactly when some reached pattern-kind entry has an invalid pattern. */
  lemma AbortsOnlyOnBadPattern(engine: RegexEngine, actual: map<string, string>, expected: map<string, string>,
                               r: HeaderCheck)
    requires Reports(engine, actual, expected, r)
    ensures r.PatternSyntaxError? <==> Aborts(engine, actual, expected)
    ensures r.PatternSyntaxError? ==>
              r.name in actual && IsPatternValue(expected[r.name]) && r.pattern == ExtractPattern(expected[r.name])
              && !engine.compiles(r.pattern)
    ensures r.Passed? <==> !Aborts(engine, actual, expected) && FailingNames(engine, actual, expected) == {}
  {
    match r
    case PatternSyntaxError(name, _) =>
      assert JudgeEntry(engine, actual, name, expected[name]).BadPattern?;
    case Failed(records) =>
      assert records[0].name in RecordedNames(records);
    case Passed =>
  }

  /** The check passes exactly when every expected entry matches its actual header. */
  lemma PassesIffAllMatch(engine: RegexEngine, actual: map<string, string>, expected: map<string, string>,
                          r: HeaderCheck)
    requires Reports(engine, actual, expected, r)
    ensures r == Passed <==> forall k :: k in expected ==> JudgeEntry(engine, actual, k, expected[k]) == Match
  {
    if forall k :: k in expected ==> JudgeEntry(engine, actual, k, expected[k]) == Match {
      assert !Aborts(engine, actual, expected);
      assert FailingNames(engine, actual, expected) == {};
      AbortsOnlyOnBadPattern(engine, actual, expected, r);
    } else if r == Passed {
      var k :| k in expected && JudgeEntry(engine, actual, k, expected[k]) != Match;
      assert k !in FailingNames(engine, actual, expected);
    }
  }

  /** The outcome depends only on the expected entries and the actual values under their names. */
  lemma OnlyExpectedNamesMatter(engine: RegexEngine, actual: map<string, string>, other: map<string, string>,
                                expected: map<string, string>, r: HeaderCheck)
    requires forall k :: k in expected ==> (k in actual <==> k in other)
    requires forall k :: k in expected && k in actual ==> actual[k] == other[k]
    ensures Reports(engine, actual, expected, r) <==> Reports(engine, other, expected, r)
  {
  }

  /** A header received but not expected never changes the outcome. */
  lemma ExtraHeaderIgnored(engine: RegexEngine, actual: map<string, string>, expected: map<string, string>,
                           name: string, value: string, r: HeaderCheck)
    requires name !in expected
    ensures Reports(engine, actual, expected, r) <==> Reports(engine, actual[name := value], expected, r)
  {
  }
}
