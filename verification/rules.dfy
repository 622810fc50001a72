/**
 * `apply_rules`: for each rule in order, evaluate its conditions against the
 * email, combine what was recorded by `condition_type`, and call
 * `perform_actions` with the email id and the rule's actions when it fires.
 * An exception raised while evaluating a condition ends the whole run; the
 * calls made for earlier rules have already happened.
 */
module Rules {
  import opened Common
  import opened Text
  import opened Mail
  import Actions

  /** Seconds in the day `timedelta.days` counts. */
  const SecondsPerDay := 86400

  /** The dictionary key a field name selects: `field.lower().replace(' ', '_')`. */
  function NormalizeField(field: string): (key: string)
    ensures |key| == |field|
    ensures forall i :: 0 <= i < |key| ==> key[i] != ' ' && !IsUpper(key[i])
    ensures forall i :: 0 <= i < |key| ==> key[i] == (if field[i] == ' ' then '_' else LowerChar(field[i]))
  {
    ReplaceChar(Lower(field), ' ', '_')
  }

  /** What `email.get(key, '')` returns, as far as the predicates can see it. */
  datatype FieldValue =
    | Str(text: string)   // a string value
    | NotStr              // `received_date`: a datetime, or None; neither has `.lower()`

  /** `email.get(key, '')` on the five keys `get_email_details` produces. */
  function Lookup(e: Email, key: string): (r: FieldValue)
    ensures r.NotStr? <==> key == "received_date"
    ensures !IsEmailKey(key) ==> r == Str("")
  {
    if key == "id" then Str(e.id)
    else if key == "sender" then Str(e.sender)
    else if key == "subject" then Str(e.subject)
    else if key == "body" then Str(e.body)
    else if key == "received_date" then NotStr
    else Str("")
  }

  /** The value a condition's field name resolves to. */
  function Resolve(e: Email, field: string): (r: FieldValue)
    ensures r.NotStr? <==> NormalizeField(field) == "received_date"
    ensures !IsEmailKey(NormalizeField(field)) ==> r == Str("")
  {
    Lookup(e, NormalizeField(field))
  }

  /** `(datetime.now() - received_date).days`: whole days elapsed, rounded down. */
  function DaysOld(now: int, received: int): int {
    (now - received) / SecondsPerDay
  }

  /**
   * One pass of the loop body over a condition: `Success(true)` when `True`
   * is appended to `conditions_met`, `Success(false)` when nothing is, and
   * `Failure` when the body raises. The predicate names are compared
   * case-sensitively; for `contains` and `equals` the field value's
   * `.lower()` is what raises on `received_date`, and `less_than` never
   * looks at the field.
   */
  function EvalCondition(e: Email, c: Condition, now: int): (r: Result<bool, EvalError>)
    ensures r.Failure? <==>
      || ((c.test == "contains" || c.test == "equals") && Resolve(e, c.field).NotStr?)
      || (c.test == "less_than" && (e.receivedDate.None? || ParseInt(c.value).None?))
  {
    var fv := Resolve(e, c.field);
    if c.test == "contains" && fv.NotStr? then Failure(NotText(NormalizeField(c.field)))
    else if c.test == "contains" && IsSubstring(Lower(c.value), Lower(fv.text)) then Success(true)
    else if c.test == "equals" && fv.NotStr? then Failure(NotText(NormalizeField(c.field)))
    else if c.test == "equals" && Lower(c.value) == Lower(fv.text) then Success(true)
    else if c.test == "less_than" then
      match e.receivedDate
      case None => Failure(MissingDate)
      case Some(received) =>
        match ParseInt(c.value)
        case None => Failure(NotAnInteger(c.value))
        case Some(limit) => Success(DaysOld(now, received) < limit)
    else Success(false)
  }

  /** The first `i` conditions evaluate without raising and condition `i` raises `err`. */
  ghost predicate FirstFailure(e: Email, conds: seq<Condition>, now: int, i: int, err: EvalError) {
    && 0 <= i < |conds|
    && EvalCondition(e, conds[i], now) == Failure(err)
    && forall j :: 0 <= j < i ==> EvalCondition(e, conds[j], now).Success?
  }

  /**
   * The `conditions_met` list the inner loop builds, or the error it raised.
   * Only `True` is ever appended, once per matching condition; the run
   * succeeds exactly when no condition raises, and otherwise fails with the
   * error of the first condition that does.
   */
  function Record(e: Email, conds: seq<Condition>, now: int): (r: Result<seq<bool>, EvalError>)
    ensures r.Success? <==> forall i :: 0 <= i < |conds| ==> EvalCondition(e, conds[i], now).Success?
    ensures r.Success? ==> forall k :: 0 <= k < |r.value| ==> r.value[k]
    ensures r.Success? ==>
      (|r.value| > 0 <==> exists i :: 0 <= i < |conds| && EvalCondition(e, conds[i], now) == Success(true))
    ensures r.Failure? ==> exists i :: FirstFailure(e, conds, now, i, r.error)
  {
    if |conds| == 0 then Success([])
    else
      match EvalCondition(e, conds[0], now)
      case Failure(err) =>
        assert FirstFailure(e, conds, now, 0, err);
        Failure(err)
      case Success(hit) =>
        var rest := Record(e, conds[1..], now);
        assert forall i :: 1 <= i < |conds| ==> conds[i] == conds[1..][i - 1];
        match rest
        case Failure(err) =>
          assert exists i :: FirstFailure(e, conds, now, i, err) by {
            var i :| FirstFailure(e, conds[1..], now, i, err);
            assert FirstFailure(e, conds, now, i + 1, err);
          }
          Failure(err)
        case Success(met) =>
          assert forall i :: 0 <= i < |conds[1..]| ==> conds[1..][i] == conds[i + 1];
          Success((if hit then [true] else []) + met)
  }

  /** `(condition_type == 'All' and all(met)) or (condition_type == 'Any' and any(met))`. */
  predicate Fires(conditionType: string, met: seq<bool>)
    ensures Fires(conditionType, met) ==> conditionType == "All" || conditionType == "Any"
    ensures met == [] ==> (Fires(conditionType, met) <==> conditionType == "All")
  {
    || (conditionType == "All" && forall k :: 0 <= k < |met| ==> met[k])
    || (conditionType == "Any" && exists k :: 0 <= k < |met| && met[k])
  }

  /** Whether `rule` fires for `e`, or the error its conditions raised. */
  function RuleOutcome(e: Email, rule: Rule, now: int): (r: Result<bool, EvalError>)
    ensures r.Failure? <==>
      exists i :: 0 <= i < |rule.conditions| && EvalCondition(e, rule.conditions[i], now).Failure?
    ensures r == Success(true) ==> rule.conditionType == "All" || rule.conditionType == "Any"
  {
    match Record(e, rule.conditions, now)
    case Failure(err) => Failure(err)
    case Success(met) => Success(Fires(rule.conditionType, met))
  }
  /** A rule raises the error of its first raising condition. */
  lemma RuleOutcomeError(e: Email, rule: Rule, now: int)
    ensures RuleOutcome(e, rule, now).Failure? ==>
      exists i :: FirstFailure(e, rule.conditions, now, i, RuleOutcome(e, rule, now).error)
  {
  }


  /** The matcher's verdict on every rule, in order. */
  function Verdicts(e: Email, rules: seq<Rule>, now: int): (v: seq<Result<bool, EvalError>>)
    ensures |v| == |rules|
    ensures forall i :: 0 <= i < |rules| ==> v[i] == RuleOutcome(e, rules[i], now)
  {
    seq(|rules|, i requires 0 <= i < |rules| => RuleOutcome(e, rules[i], now))
  }

  /**
   * The loop of `apply_rules` given each rule's verdict: one
   * `perform_actions(id, actions)` call per firing rule, in rule order, until
   * the first verdict that is an error. The run completes exactly when no
   * verdict is an error, and makes at most one call per rule.
   */
  function Dispatch(id: string, rules: seq<Rule>, verdicts: seq<Result<bool, EvalError>>): (r: Run<Call>)
    requires |verdicts| == |rules|
    ensures |r.trace| <= |rules|
    ensures forall k :: 0 <= k < |r.trace| ==> r.trace[k].emailId == id
    ensures r.failure.None? <==> forall i :: 0 <= i < |verdicts| ==> verdicts[i].Success?
    ensures r.failure.Some? ==> exists i :: 0 <= i < |verdicts| && verdicts[i] == Failure(r.failure.value)
  {
    if |rules| == 0 then Run([], None)
    else
      match verdicts[0]
      case Failure(err) => Run([], Some(err))
      case Success(fire) =>
        var rest := Dispatch(id, rules[1..], verdicts[1..]);
        var here := if fire then [Call(id, rules[0].actions)] else [];
        assert forall i :: 1 <= i < |verdicts| ==> verdicts[i] == verdicts[1..][i - 1];
        assert forall i :: 0 <= i < |verdicts[1..]| ==> verdicts[1..][i] == verdicts[i + 1];
        Run(here + rest.trace, rest.failure)
  }

  /**
   * `apply_rules(email, rules)` with `perform_actions` observed rather than
   * run: the calls it makes, in order, and the error that stopped it. Every
   * call carries the email's id, there is at most one per rule, the run
   * completes exactly when no rule's conditions raise, and an error it
   * stops with is one some rule's conditions raised.
   */
  function ApplyRules(e: Email, rules: seq<Rule>, now: int): (r: Run<Call>)
    ensures |r.trace| <= |rules|
    ensures forall k :: 0 <= k < |r.trace| ==> r.trace[k].emailId == e.id
    ensures r.failure.None? <==> forall i :: 0 <= i < |rules| ==> RuleOutcome(e, rules[i], now).Success?
    ensures r.failure.Some? ==> exists i :: 0 <= i < |rules| && RuleOutcome(e, rules[i], now) == Failure(r.failure.value)
  {
    Dispatch(e.id, rules, Verdicts(e, rules, now))
  }

  /**
   * `perform_actions` for each call in turn, against the mailbox's label
   * list: every request sent is about the email of one of the calls.
   */
  function Execute(calls: seq<Call>, labels: seq<Label>): (ops: seq<Op>)
    ensures forall k :: 0 <= k < |ops| ==> exists j :: 0 <= j < |calls| && ops[k].emailId == calls[j].emailId
  {
    if |calls| == 0 then []
    else
      var first := Actions.PerformActions(calls[0].emailId, calls[0].actions, labels);
      var rest := Execute(calls[1..], labels);
      assert forall k :: 0 <= k < |rest| ==> exists j :: 0 <= j < |calls| && rest[k].emailId == calls[j].emailId by {
        forall k | 0 <= k < |rest|
          ensures exists j :: 0 <= j < |calls| && rest[k].emailId == calls[j].emailId
        {
          var j :| 0 <= j < |calls[1..]| && rest[k].emailId == calls[1..][j].emailId;
          assert calls[1..][j] == calls[j + 1];
        }
      }
      first + rest
  }

  /**
   * `apply_rules(email, rules)` with `perform_actions` run against a mailbox
   * whose label list is `labels`: the requests sent, in order, and the error
   * that stopped the run. Every request is about this email.
   */
  function Process(e: Email, rules: seq<Rule>, now: int, labels: seq<Label>): (r: Run<Op>)
    ensures r.failure == ApplyRules(e, rules, now).failure
    ensures forall k :: 0 <= k < |r.trace| ==> r.trace[k].emailId == e.id
  {
    var calls := ApplyRules(e, rules, now);
    Run(Execute(calls.trace, labels), calls.failure)
  }

  // ---------------------------------------------------------------------
  // Field resolution

  /** The dictionary keys `get_email_details` fills in. */
  predicate IsEmailKey(key: string) {
    key == "id" || key == "sender" || key == "subject" || key == "body" || key == "received_date"
  }

  /**
   * A field name selects the key it normalises to, so names differing only in
   * letter case or in spaces versus underscores select the same value, and a
   * name that selects no key of the email reads as the empty string rather
   * than raising.
   */
  lemma ResolveByKey(e: Email, f: string, g: string)
    ensures NormalizeField(f) == NormalizeField(g) ==> Resolve(e, f) == Resolve(e, g)
    ensures NormalizeField(f) == "id" ==> Resolve(e, f) == Str(e.id)
    ensures NormalizeField(f) == "sender" ==> Resolve(e, f) == Str(e.sender)
    ensures NormalizeField(f) == "subject" ==> Resolve(e, f) == Str(e.subject)
    ensures NormalizeField(f) == "body" ==> Resolve(e, f) == Str(e.body)
    ensures !IsEmailKey(NormalizeField(f)) ==> Resolve(e, f) == Str("")
    ensures Resolve(e, f).NotStr? <==> NormalizeField(f) == "received_date"
  {
  }

  /** Normalising a field name twice changes nothing. */
  lemma NormalizeFieldIdempotent(f: string)
    ensures NormalizeField(NormalizeField(f)) == NormalizeField(f)
  {
  }

  /** A name with no upper-case letter and no space is its own key. */
  lemma NormalizeFieldFixed(f: string)
    requires forall i :: 0 <= i < |f| ==> f[i] != ' ' && !IsUpper(f[i])
    ensures NormalizeField(f) == f
  {
  }

  /**
   * Two characters a field name may carry interchangeably: the same
   * character, the two cases of one ASCII letter, or a space and an
   * underscore.
   */
  predicate AlikeChar(a: char, b: char) {
    || CaseAlike(a, b)
    || (a == ' ' && b == '_')
    || (a == '_' && b == ' ')
  }

  /**
   * Two field names select the same key exactly when they differ only in
   * letter case, or in a space against an underscore.
   */
  lemma NormalizeFieldAlike(f: string, g: string)
    ensures NormalizeField(f) == NormalizeField(g)
        <==> |f| == |g| && forall i :: 0 <= i < |f| ==> AlikeChar(f[i], g[i])
  {
    var kf := NormalizeField(f);
    var kg := NormalizeField(g);
    if kf == kg {
      forall i | 0 <= i < |f|
        ensures AlikeChar(f[i], g[i])
      {
        assert kf[i] == kg[i];
      }
    }
    if |f| == |g| && forall i :: 0 <= i < |f| ==> AlikeChar(f[i], g[i]) {
      forall i | 0 <= i < |f|
        ensures kf[i] == kg[i]
      {
        assert AlikeChar(f[i], g[i]);
      }
    }
  }

  /** Case-insensitive prefix: a prefix of `b` occurs in `b`, lower-cased. */
  lemma LowerPrefixOccurs(a: string, b: string)
    requires a <= b
    ensures IsSubstring(Lower(a), Lower(b))
  {
  }

  /** "Subject" selects the subject and "Received Date" the date. */
  lemma ResolveExamples(e: Email)
    ensures Resolve(e, "Subject") == Str(e.subject)
    ensures Resolve(e, "Received Date") == NotStr
    ensures Resolve(e, "From") == Str("")
  {
    SubjectKey();
    ReceivedDateKey();
    var f := NormalizeField("From");
    assert f[0] == 'f';
  }

  lemma SubjectKey()
    ensures NormalizeField("Subject") == "subject"
  {
    var s := NormalizeField("Subject");
    assert s[0] == 's' && s[1] == 'u' && s[2] == 'b' && s[3] == 'j';
    assert s[4] == 'e' && s[5] == 'c' && s[6] == 't';
  }

  lemma ReceivedDateKey()
    ensures NormalizeField("Received Date") == "received_date"
  {
    var r := NormalizeField("Received Date");
    assert r[0] == 'r' && r[1] == 'e' && r[2] == 'c' && r[3] == 'e' && r[4] == 'i';
    assert r[5] == 'v' && r[6] == 'e' && r[7] == 'd' && r[8] == '_';
    assert r[9] == 'd' && r[10] == 'a' && r[11] == 't' && r[12] == 'e';
  }

  // ---------------------------------------------------------------------
  // Predicates

  /**
   * `contains` on a string field is the case-insensitive substring test and
   * never raises: the lower-cased value must occur in the lower-cased field.
   * The empty value therefore always matches, and a non-empty value never
   * matches a field the email does not have.
   */
  lemma ContainsMeaning(e: Email, c: Condition, now: int)
    requires c.test == "contains"
    requires Resolve(e, c.field).Str?
    ensures EvalCondition(e, c, now).Success?
    ensures EvalCondition(e, c, now).value
        <==> exists i :: OccursAt(Lower(c.value), Lower(Resolve(e, c.field).text), i)
    ensures c.value == "" ==> EvalCondition(e, c, now) == Success(true)
    ensures c.value != "" && !IsEmailKey(NormalizeField(c.field)) ==> EvalCondition(e, c, now) == Success(false)
  {
  }

  /**
   * `equals` on a string field matches exactly when value and field agree
   * after lower-casing, and never raises.
   */
  lemma EqualsMeaning(e: Email, c: Condition, now: int)
    requires c.test == "equals"
    requires Resolve(e, c.field).Str?
    ensures EvalCondition(e, c, now) == Success(Lower(c.value) == Lower(Resolve(e, c.field).text))
  {
  }

  /** `contains` and `equals` raise on the date field, whose value has no `.lower()`. */
  lemma TextTestOnDateRaises(e: Email, c: Condition, now: int)
    requires c.test == "contains" || c.test == "equals"
    requires NormalizeField(c.field) == "received_date"
    ensures EvalCondition(e, c, now) == Failure(NotText("received_date"))
  {
  }

  /** `equals` ignores letter case: "Test" equals a subject of "test". */
  lemma EqualsIgnoresCase(e: Email, now: int)
    requires e.subject == "test"
    ensures EvalCondition(e, Condition("Subject", "equals", "Test"), now) == Success(true)
  {
  }

  /**
   * A predicate name other than the three known ones, in any letter case,
   * records nothing and raises nothing.
   */
  lemma UnknownTestRecordsNothing(e: Email, c: Condition, now: int)
    requires c.test != "contains" && c.test != "equals" && c.test != "less_than"
    ensures EvalCondition(e, c, now) == Success(false)
  {
  }

  /**
   * `timedelta.days` is the floor of the age in days: the whole days that fit
   * in the elapsed seconds, also when the date lies in the future.
   */
  lemma DaysOldFloor(now: int, received: int)
    ensures DaysOld(now, received) * SecondsPerDay <= now - received < (DaysOld(now, received) + 1) * SecondsPerDay
  {
  }

  /** `timedelta.days < limit` is the same as "fewer than `limit` whole days of seconds". */
  lemma DaysOldBelow(now: int, received: int, limit: int)
    ensures DaysOld(now, received) < limit <==> now - received < limit * SecondsPerDay
  {
  }

  /**
   * `less_than` reads `received_date` whatever the field says: with a date
   * and an integer value it holds exactly when the email is fewer than
   * `value` whole days old; with no date it raises, and with a value `int()`
   * rejects it raises.
   */
  lemma LessThanMeaning(e: Email, field: string, value: string, now: int)
    ensures EvalCondition(e, Condition(field, "less_than", value), now)
         == EvalCondition(e, Condition("received_date", "less_than", value), now)
    ensures e.receivedDate.None? ==>
      EvalCondition(e, Condition(field, "less_than", value), now) == Failure(MissingDate)
    ensures e.receivedDate.Some? && ParseInt(value).None? ==>
      EvalCondition(e, Condition(field, "less_than", value), now) == Failure(NotAnInteger(value))
    ensures e.receivedDate.Some? && ParseInt(value).Some? ==>
      EvalCondition(e, Condition(field, "less_than", value), now)
        == Success(now - e.receivedDate.value < ParseInt(value).value * SecondsPerDay)
  {
  }

  // ---------------------------------------------------------------------
  // Combination

  /**
   * `conditions_met` only ever holds `True`, so `all(conditions_met)` cannot
   * fail: an `All` rule fires whenever none of its conditions raises,
   * whatever they test.
   */
  lemma AllFiresUnlessRaised(e: Email, rule: Rule, now: int)
    requires rule.conditionType == "All"
    ensures RuleOutcome(e, rule, now).Success?
        <==> forall i :: 0 <= i < |rule.conditions| ==> EvalCondition(e, rule.conditions[i], now).Success?
    ensures RuleOutcome(e, rule, now).Success? ==> RuleOutcome(e, rule, now).value
  {
  }

  /** An `All` rule whose only condition does not match still fires. */
  lemma AllFiresOnMismatch(e: Email, now: int)
    requires e.subject == ""
    ensures EvalCondition(e, Condition("Subject", "equals", "x"), now) == Success(false)
    ensures RuleOutcome(e, Rule([Condition("Subject", "equals", "x")], "All", []), now) == Success(true)
  {
  }

  /**
   * An `Any` rule whose conditions raise nothing fires exactly when one of
   * them matches; with no conditions it never fires.
   */
  lemma AnyFiresOnAMatch(e: Email, rule: Rule, now: int)
    requires rule.conditionType == "Any"
    requires RuleOutcome(e, rule, now).Success?
    ensures RuleOutcome(e, rule, now).value
        <==> exists i :: 0 <= i < |rule.conditions| && EvalCondition(e, rule.conditions[i], now) == Success(true)
    ensures rule.conditions == [] ==> !RuleOutcome(e, rule, now).value
  {
    var met := Record(e, rule.conditions, now).value;
    if |met| > 0 {
      assert met[0];
    }
  }

  /** A `condition_type` other than `All` or `Any` never fires. */
  lemma OtherTypeNeverFires(e: Email, rule: Rule, now: int)
    requires rule.conditionType != "All" && rule.conditionType != "Any"
    ensures RuleOutcome(e, rule, now) != Success(true)
  {
  }

  /** An `Any` rule with a matching and a non-matching condition fires. */
  lemma AnyWithOneMatchFires(e: Email, hit: Condition, miss: Condition, actions: seq<string>, now: int)
    requires EvalCondition(e, hit, now) == Success(true)
    requires EvalCondition(e, miss, now) == Success(false)
    ensures RuleOutcome(e, Rule([hit, miss], "Any", actions), now) == Success(true)
    ensures RuleOutcome(e, Rule([miss, hit], "Any", actions), now) == Success(true)
  {
    AnyFiresOnAMatch(e, Rule([hit, miss], "Any", actions), now);
    AnyFiresOnAMatch(e, Rule([miss, hit], "Any", actions), now);
    assert [miss, hit][1] == hit;
  }

  // ---------------------------------------------------------------------
  // Dispatch

  /** The dispatch loop over a concatenation runs the two parts in turn. */
  lemma {:induction false} DispatchAppend(id: string, a: seq<Rule>, b: seq<Rule>,
                                         va: seq<Result<bool, EvalError>>, vb: seq<Result<bool, EvalError>>)
    requires |va| == |a| && |vb| == |b|
    ensures Dispatch(id, a, va).failure.Some? ==> Dispatch(id, a + b, va + vb) == Dispatch(id, a, va)
    ensures Dispatch(id, a, va).failure.None? ==>
      Dispatch(id, a + b, va + vb)
        == Run(Dispatch(id, a, va).trace + Dispatch(id, b, vb).trace, Dispatch(id, b, vb).failure)
    decreases |a|
  {
    if |a| > 0 {
      var ab, vab := a + b, va + vb;
      assert ab[0] == a[0] && vab[0] == va[0];
      assert ab[1..] == a[1..] + b && vab[1..] == va[1..] + vb;
      DispatchAppend(id, a[1..], b, va[1..], vb);
      match va[0]
      case Failure(err) =>
        assert Dispatch(id, ab, vab) == Run([], Some(err));
      case Success(fire) =>
        var here := if fire then [Call(id, a[0].actions)] else [];
        var tail := Dispatch(id, a[1..], va[1..]);
        var joined := Dispatch(id, a[1..] + b, va[1..] + vb);
        assert Dispatch(id, a, va) == Run(here + tail.trace, tail.failure);
        assert Dispatch(id, ab, vab) == Run(here + joined.trace, joined.failure);
        if tail.failure.None? {
          var back := Dispatch(id, b, vb).trace;
          assert here + (tail.trace + back) == (here + tail.trace) + back;
        }
    } else {
      assert a + b == b && va + vb == vb;
    }
  }

  /**
   * Rules are taken in list order: running a concatenation runs the first
   * list, and only if that completed, the second after it.
   */
  lemma ApplyRulesAppend(e: Email, a: seq<Rule>, b: seq<Rule>, now: int)
    ensures ApplyRules(e, a, now).failure.Some? ==> ApplyRules(e, a + b, now) == ApplyRules(e, a, now)
    ensures ApplyRules(e, a, now).failure.None? ==>
      ApplyRules(e, a + b, now)
        == Run(ApplyRules(e, a, now).trace + ApplyRules(e, b, now).trace, ApplyRules(e, b, now).failure)
  {
    VerdictsAppend(e, a, b, now);
    DispatchAppend(e.id, a, b, Verdicts(e, a, now), Verdicts(e, b, now));
  }

  lemma VerdictsAppend(e: Email, a: seq<Rule>, b: seq<Rule>, now: int)
    ensures Verdicts(e, a + b, now) == Verdicts(e, a, now) + Verdicts(e, b, now)
  {
    var v, va, vb := Verdicts(e, a + b, now), Verdicts(e, a, now), Verdicts(e, b, now);
    forall i | 0 <= i < |v|
      ensures v[i] == (va + vb)[i]
    {
      if i < |a| {
        assert (a + b)[i] == a[i];
      } else {
        assert (a + b)[i] == b[i - |a|];
      }
    }
  }

  /**
   * One rule on its own: a firing rule makes exactly one `perform_actions`
   * call, with the email's id and the rule's action list; a rule that does
   * not fire makes none; a rule whose conditions raise makes none and stops
   * the run with that error.
   */
  lemma ApplyOneRule(e: Email, rule: Rule, now: int)
    ensures RuleOutcome(e, rule, now) == Success(true) ==>
      ApplyRules(e, [rule], now) == Run([Call(e.id, rule.actions)], None)
    ensures RuleOutcome(e, rule, now) == Success(false) ==>
      ApplyRules(e, [rule], now) == Run([], None)
    ensures RuleOutcome(e, rule, now).Failure? ==>
      ApplyRules(e, [rule], now) == Run([], Some(RuleOutcome(e, rule, now).error))
  {
  }

  /**
   * An error in rule `k` ends the run there: the calls made are those of the
   * rules before it, and no later rule is looked at.
   */
  lemma ErrorStopsRun(e: Email, rules: seq<Rule>, now: int, k: nat, err: EvalError)
    requires k < |rules|
    requires RuleOutcome(e, rules[k], now) == Failure(err)
    requires forall i :: 0 <= i < k ==> RuleOutcome(e, rules[i], now).Success?
    ensures ApplyRules(e, rules, now) == Run(ApplyRules(e, rules[..k], now).trace, Some(err))
  {
    assert rules == rules[..k] + ([rules[k]] + rules[k + 1..]);
    ApplyRulesAppend(e, rules[..k], [rules[k]] + rules[k + 1..], now);
    ApplyRulesAppend(e, [rules[k]], rules[k + 1..], now);
    ApplyOneRule(e, rules[k], now);
    assert ApplyRules(e, rules[..k], now).failure.None?;
  }

  lemma {:induction false} ExecuteAppend(a: seq<Call>, b: seq<Call>, labels: seq<Label>)
    ensures Execute(a + b, labels) == Execute(a, labels) + Execute(b, labels)
    decreases |a|
  {
    if |a| > 0 {
      assert (a + b)[0] == a[0];
      assert (a + b)[1..] == a[1..] + b;
      ExecuteAppend(a[1..], b, labels);
    } else {
      assert a + b == b;
    }
  }
  /** One call `perform_actions(email_id, actions)` sends exactly the requests PerformActions gives. */
  lemma ExecuteCall(c: Call, labels: seq<Label>)
    ensures Execute([c], labels) == Actions.PerformActions(c.emailId, c.actions, labels)
  {
    assert [c][1..] == [];
  }

  /**
   * The requests of a single rule: a firing rule sends exactly what
   * `perform_actions(email['id'], rule['actions'])` sends, a rule that does
   * not fire sends nothing, and a raising rule sends nothing and stops.
   */
  lemma ProcessOneRule(e: Email, rule: Rule, now: int, labels: seq<Label>)
    ensures RuleOutcome(e, rule, now) == Success(true) ==>
      Process(e, [rule], now, labels) == Run(Actions.PerformActions(e.id, rule.actions, labels), None)
    ensures RuleOutcome(e, rule, now) == Success(false) ==>
      Process(e, [rule], now, labels) == Run([], None)
    ensures RuleOutcome(e, rule, now).Failure? ==>
      Process(e, [rule], now, labels) == Run([], Some(RuleOutcome(e, rule, now).error))
  {
    ApplyOneRule(e, rule, now);
    ExecuteCall(Call(e.id, rule.actions), labels);
  }


  /**
   * The mailbox requests made before an error stay made: when rule `k`
   * raises, the requests sent are exactly those of the rules before it.
   */
  lemma ErrorKeepsEarlierRequests(e: Email, rules: seq<Rule>, now: int, labels: seq<Label>, k: nat, err: EvalError)
    requires k < |rules|
    requires RuleOutcome(e, rules[k], now) == Failure(err)
    requires forall i :: 0 <= i < k ==> RuleOutcome(e, rules[i], now).Success?
    ensures Process(e, rules, now, labels) == Run(Process(e, rules[..k], now, labels).trace, Some(err))
  {
    ErrorStopsRun(e, rules, now, k, err);
  }

  /**
   * Running the rules of two lists back to back sends the requests of the
   * first list and then, if it completed, those of the second.
   */
  lemma ProcessAppend(e: Email, a: seq<Rule>, b: seq<Rule>, now: int, labels: seq<Label>)
    requires ApplyRules(e, a, now).failure.None?
    ensures Process(e, a + b, now, labels).trace
         == Process(e, a, now, labels).trace + Process(e, b, now, labels).trace
  {
    ApplyRulesAppend(e, a, b, now);
    ExecuteAppend(ApplyRules(e, a, now).trace, ApplyRules(e, b, now).trace, labels);
  }

  /**
   * The unit test `test_apply_rules`: an `All` rule `Subject contains "Test"`
   * with action `mark_as_read`, against a day-old email "Test Email" with
   * id "123", makes the single call `('123', ['mark_as_read'])`, and that
   * call removes the email's UNREAD label.
   */
  lemma MarkTestEmailRead(now: int, labels: seq<Label>)
    ensures var e := Email("123", "test@example.com", "Test Email", "This is a test email.", Some(now - SecondsPerDay));
            var rule := Rule([Condition("Subject", "contains", "Test")], "All", ["mark_as_read"]);
            && EvalCondition(e, rule.conditions[0], now) == Success(true)
            && ApplyRules(e, [rule], now) == Run([Call("123", ["mark_as_read"])], None)
            && Process(e, [rule], now, labels) == Run([RemoveUnread("123")], None)
  {
    var e := Email("123", "test@example.com", "Test Email", "This is a test email.", Some(now - SecondsPerDay));
    var c := Condition("Subject", "contains", "Test");
    var rule := Rule([c], "All", ["mark_as_read"]);
    ResolveExamples(e);
    LowerPrefixOccurs("Test", "Test Email");
    assert EvalCondition(e, c, now) == Success(true);
    AllFiresUnlessRaised(e, rule, now);
    ApplyOneRule(e, rule, now);
    var calls := [Call("123", ["mark_as_read"])];
    assert Execute(calls, labels) == Actions.PerformActions("123", ["mark_as_read"], labels) + Execute([], labels);
    assert Actions.Decode("mark_as_read") == Some(Actions.MarkAsRead);
  }
}
