/** The customer record of customer.py: the profile check of the
    constructor, the questions that fill in the preferences, and the loop
    that lets the customer change them. */
module Customer {
  import opened Base
  import opened Text
  import opened Dicts
  import opened Config
  import opened Calendar
  import opened Questionnaire

  // ---------------------------------------------------------------------------
  // Customer.__init__
  // ---------------------------------------------------------------------------

  /** A profile value as far as `type(...)` tells values apart: under
      `type(x) == int` a `bool` is not an `int`. */
  datatype PyValue = StrValue(s: string) | IntValue(i: int) | BoolValue(b: bool) | OtherValue

  /** The assertion of the constructor that fails first. */
  datatype ProfileError = WrongKeys | NameNotString | AgeNotInteger | GenderNotString | UnknownGender

  const ProfileKeys: seq<string> := ["name", "age", "gender"]

  /** The keys of a profile are the expected ones exactly when its three
      entries carry them in order. */
  lemma ProfileKeysAt(profile: Dict<string, PyValue>)
    ensures Keys(profile) == ProfileKeys <==>
              |profile| == 3 && profile[0].0 == "name" && profile[1].0 == "age" && profile[2].0 == "gender"
  {
    if Keys(profile) == ProfileKeys {
      assert |Keys(profile)| == |profile|;
      assert Keys(profile)[0] == profile[0].0 && Keys(profile)[1] == profile[1].0 && Keys(profile)[2] == profile[2].0;
    }
    if |profile| == 3 && profile[0].0 == "name" && profile[1].0 == "age" && profile[2].0 == "gender" {
      assert Keys(profile) == ProfileKeys;
    }
  }

  /** With the expected keys, `profile[key]` finds the entry at the key's
      position. */
  lemma ProfileFields(profile: Dict<string, PyValue>)
    requires |profile| == 3 && profile[0].0 == "name" && profile[1].0 == "age" && profile[2].0 == "gender"
    ensures Get(profile, "name") == Some(profile[0].1)
    ensures Get(profile, "age") == Some(profile[1].1)
    ensures Get(profile, "gender") == Some(profile[2].1)
  {
    assert profile[0].0 != profile[1].0 && profile[0].0 != profile[2].0 && profile[1].0 != profile[2].0 by {
      assert profile[0].0[0] == 'n' && profile[1].0[0] == 'a' && profile[2].0[0] == 'g';
    }
    assert IsDict(profile);
    GetAt(profile, 0);
    GetAt(profile, 1);
    GetAt(profile, 2);
  }

  /** The assertions of `Customer(profile)`, in the order the constructor
      makes them; `None` when the profile is accepted. */
  function CheckProfile(profile: Dict<string, PyValue>): (r: Option<ProfileError>)
    ensures r.None? <==>
              && |profile| == 3
              && profile[0].0 == "name" && profile[1].0 == "age" && profile[2].0 == "gender"
              && profile[0].1.StrValue? && profile[1].1.IntValue? && profile[2].1.StrValue?
              && profile[2].1.s in GenderNames()
    ensures r == Some(WrongKeys) <==> Keys(profile) != ProfileKeys
  {
    ProfileKeysAt(profile);
    if Keys(profile) != ProfileKeys then Some(WrongKeys)
    else
      ProfileFields(profile);
      var name, age, gender := Get(profile, "name").value, Get(profile, "age").value, Get(profile, "gender").value;
      if !name.StrValue? then Some(NameNotString)
      else if !age.IntValue? then Some(AgeNotInteger)
      else if !gender.StrValue? then Some(GenderNotString)
      else if gender.s !in GenderNames() then Some(UnknownGender)
      else None
  }

  // ---------------------------------------------------------------------------
  // The preferences
  // ---------------------------------------------------------------------------

  /** The preferences the questions fill in. The enum fields hold the
      member whose name the questionnaire returned; the dates are day
      numbers. */
  datatype Preferences = Preferences(
    objective: MealObjective,
    mealType: MealType,
    start: int,
    end: int,
    frequency: MealFrequency,
    allergies: seq<Allergen>)

  /** A choice question over an enum's `to_dict()`; the name it returns is
      then checked against the enum's namespace and stands for its member. */
  function AskMember<E>(dict: Dict<string, string>, members: seq<E>, fromName: string -> Option<E>,
                        lines: seq<string>, at: nat): (r: Option<Answer<E>>)
    requires |dict| == |members|
    requires forall i :: 0 <= i < |dict| ==> fromName(dict[i].1) == Some(members[i])
    ensures r.Some? ==> at < r.value.next <= |lines|
  {
    match AskChoice(dict, lines, at)
    case None => None
    case Some(a) =>
      AskChoiceSpec(dict, lines, at);
      Some(Answer(fromName(a.value.value).value, a.next))
  }

  /** Typing choice number `k` selects the k-th member in declaration
      order, and the question gives up only when no line is a choice
      number. In particular the membership assertion after the question
      never fails. */
  lemma AskMemberSpec<E>(dict: Dict<string, string>, members: seq<E>, fromName: string -> Option<E>,
                         lines: seq<string>, at: nat)
    requires |dict| == |members|
    requires forall i :: 0 <= i < |dict| ==> fromName(dict[i].1) == Some(members[i])
    ensures AskMember(dict, members, fromName, lines, at).None? <==>
              forall j :: at <= j < |lines| ==> ChoiceNumber(lines[j], |members|).None?
    ensures AskMember(dict, members, fromName, lines, at).Some? ==>
              var a := AskMember(dict, members, fromName, lines, at).value;
              var k := ChoiceNumber(lines[a.next - 1], |members|);
              k.Some? && a.value == members[k.value - 1]
  {
    AskChoiceSpec(dict, lines, at);
  }

  /** `ask_objective`. */
  function AskObjective(lines: seq<string>, at: nat): (r: Option<Answer<MealObjective>>)
    ensures r.Some? ==> at < r.value.next <= |lines|
  {
    MealObjectiveDictValues();
    AskMember(MealObjectiveDict(), MealObjectives, MealObjectiveFromName, lines, at)
  }

  /** `ask_type`. */
  function AskType(lines: seq<string>, at: nat): (r: Option<Answer<MealType>>)
    ensures r.Some? ==> at < r.value.next <= |lines|
  {
    MealTypeDictValues();
    AskMember(MealTypeDict(), MealTypes, MealTypeFromName, lines, at)
  }

  /** `ask_frequency`. */
  function AskFrequency(lines: seq<string>, at: nat): (r: Option<Answer<MealFrequency>>)
    ensures r.Some? ==> at < r.value.next <= |lines|
  {
    MealFrequencyDictValues();
    AskMember(MealFrequencyDict(), MealFrequencies, MealFrequencyFromName, lines, at)
  }

  /** The enum members a list of names stands for. */
  function ToMembers<E>(fromName: string -> Option<E>, names: seq<string>): (r: seq<E>)
    requires forall i :: 0 <= i < |names| ==> fromName(names[i]).Some?
    ensures |r| == |names|
    ensures forall i :: 0 <= i < |names| ==> Some(r[i]) == fromName(names[i])
  {
    if |names| == 0 then []
    else [fromName(names[0]).value] + ToMembers(fromName, names[1..])
  }

  /** The names a list question over an enum's `to_dict()` hands back are
      the names at the selected positions. */
  lemma ReadListNames<E>(dict: Dict<string, string>, members: seq<E>, fromName: string -> Option<E>, line: string)
    requires |dict| == |members|
    requires forall i :: 0 <= i < |dict| ==> fromName(dict[i].1) == Some(members[i])
    ensures ReadList(dict, line).Some? ==>
              forall i :: 0 <= i < |ReadList(dict, line).value| ==> fromName(ReadList(dict, line).value[i]).Some?
    ensures ReadList(dict, line).Some? && Selection(line, |dict|).Some? && !(|Tokens(line)| == 1 && Tokens(line)[0] == "") ==>
              var ks := Selection(line, |dict|).value;
              && |ReadList(dict, line).value| == |ks|
              && forall i :: 0 <= i < |ks| ==> fromName(ReadList(dict, line).value[i]) == Some(members[ks[i]])
  {
  }

  /** A list question over an enum's `to_dict()`; every name it returns is
      checked against the enum's namespace and stands for its member. */
  function AskMembers<E>(dict: Dict<string, string>, members: seq<E>, fromName: string -> Option<E>,
                         lines: seq<string>, at: nat): (r: Option<Answer<seq<E>>>)
    requires |dict| == |members|
    requires forall i :: 0 <= i < |dict| ==> fromName(dict[i].1) == Some(members[i])
    ensures r.Some? ==> at < r.value.next <= |lines|
  {
    match AskList(dict, lines, at)
    case None => None
    case Some(a) =>
      AskedMembers(dict, members, fromName, lines, at, a.next - 1, a.value);
      Some(Answer(ToMembers(fromName, a.value), a.next))
  }

  /** The list question gives up only when every line is rejected;
      otherwise the members returned are exactly those some typed token
      selects, counting from the end for negative numbers. In particular
      the membership assertion after the question never fails. */
  lemma AskMembersSpec<E>(dict: Dict<string, string>, members: seq<E>, fromName: string -> Option<E>,
                          lines: seq<string>, at: nat)
    requires |dict| == |members|
    requires forall i :: 0 <= i < |dict| ==> fromName(dict[i].1) == Some(members[i])
    ensures AskMembers(dict, members, fromName, lines, at).None? <==>
              forall j :: at <= j < |lines| ==> ReadListReply(dict, lines[j]).Rejected?
    ensures AskMembers(dict, members, fromName, lines, at).Some? ==>
              var a := AskMembers(dict, members, fromName, lines, at).value;
              SelectsExactly(members, lines[a.next - 1], a.value)
  {
    AskMembersGivesUp(dict, members, fromName, lines, at);
    if AskMembers(dict, members, fromName, lines, at).Some? {
      var a := AskMembers(dict, members, fromName, lines, at).value;
      AskMembersSelects(dict, members, fromName, lines, at, a.next - 1, a.value);
    }
  }

  lemma AskMembersGivesUp<E>(dict: Dict<string, string>, members: seq<E>, fromName: string -> Option<E>,
                             lines: seq<string>, at: nat)
    requires |dict| == |members|
    requires forall i :: 0 <= i < |dict| ==> fromName(dict[i].1) == Some(members[i])
    ensures AskMembers(dict, members, fromName, lines, at).None? <==>
              forall j :: at <= j < |lines| ==> ReadListReply(dict, lines[j]).Rejected?
  {
    AskListSpec(dict, lines, at);
  }

  lemma AskMembersSelects<E>(dict: Dict<string, string>, members: seq<E>, fromName: string -> Option<E>,
                             lines: seq<string>, at: nat, j: nat, xs: seq<E>)
    requires |dict| == |members|
    requires forall i :: 0 <= i < |dict| ==> fromName(dict[i].1) == Some(members[i])
    requires AskMembers(dict, members, fromName, lines, at) == Some(Answer(xs, j + 1))
    ensures j < |lines| && SelectsExactly(members, lines[j], xs)
  {
    AskMembersOfList(dict, members, fromName, lines, at);
    AskedMembers(dict, members, fromName, lines, at, j, AskList(dict, lines, at).value.value);
  }

  /** What the list question read on its last line, as members. */
  lemma AskedMembers<E>(dict: Dict<string, string>, members: seq<E>, fromName: string -> Option<E>,
                        lines: seq<string>, at: nat, j: nat, names: seq<string>)
    requires |dict| == |members|
    requires forall i :: 0 <= i < |dict| ==> fromName(dict[i].1) == Some(members[i])
    requires AskList(dict, lines, at) == Some(Answer(names, j + 1))
    ensures j < |lines|
    ensures forall i :: 0 <= i < |names| ==> fromName(names[i]).Some?
    ensures SelectsExactly(members, lines[j], ToMembers(fromName, names))
  {
    AskListAnswer(dict, lines, at);
    ReadMembers(dict, members, fromName, lines[j], names);
  }

  /** The members handed back stand for the names the list question
      returned, and the same lines were read. */
  lemma AskMembersOfList<E>(dict: Dict<string, string>, members: seq<E>, fromName: string -> Option<E>,
                            lines: seq<string>, at: nat)
    requires |dict| == |members|
    requires forall i :: 0 <= i < |dict| ==> fromName(dict[i].1) == Some(members[i])
    requires AskMembers(dict, members, fromName, lines, at).Some?
    ensures AskList(dict, lines, at).Some?
    ensures var l := AskList(dict, lines, at).value;
            && (forall i :: 0 <= i < |l.value| ==> fromName(l.value[i]).Some?)
            && AskMembers(dict, members, fromName, lines, at) == Some(Answer(ToMembers(fromName, l.value), l.next))
  {
    AskListAnswer(dict, lines, at);
    var l := AskList(dict, lines, at).value;
    ReadListNames(dict, members, fromName, lines[l.next - 1]);
  }

  /** What one accepted line of a list question selects. */
  lemma ReadMembers<E>(dict: Dict<string, string>, members: seq<E>, fromName: string -> Option<E>,
                       line: string, names: seq<string>)
    requires |dict| == |members|
    requires forall i :: 0 <= i < |dict| ==> fromName(dict[i].1) == Some(members[i])
    requires ReadList(dict, line) == Some(names)
    ensures forall i :: 0 <= i < |names| ==> fromName(names[i]).Some?
    ensures SelectsExactly(members, line, ToMembers(fromName, names))
  {
    ReadListNames(dict, members, fromName, line);
    if |Tokens(line)| == 1 && Tokens(line)[0] == "" {
      OnlyBlankTokens(members, line);
    } else {
      ReadMembersSelected(dict, members, fromName, line, names);
    }
  }

  /** A line with some token selects, through the names it yields, exactly
      the members its tokens name. */
  lemma ReadMembersSelected<E>(dict: Dict<string, string>, members: seq<E>, fromName: string -> Option<E>,
                               line: string, names: seq<string>)
    requires |dict| == |members|
    requires forall i :: 0 <= i < |dict| ==> fromName(dict[i].1) == Some(members[i])
    requires ReadList(dict, line) == Some(names)
    requires !(|Tokens(line)| == 1 && Tokens(line)[0] == "")
    ensures forall i :: 0 <= i < |names| ==> fromName(names[i]).Some?
    ensures SelectsExactly(members, line, ToMembers(fromName, names))
  {
    ReadListSelection(dict, line);
    ReadListNames(dict, members, fromName, line);
    var selected := ToMembers(fromName, names);
    var ks := Selection(line, |members|).value;
    forall i | 0 <= i < |ks| ensures ks[i] < |members| && selected[i] == members[ks[i]] {
      assert Some(selected[i]) == fromName(names[i]) == Some(members[ks[i]]);
    }
    SelectionSelectsExactly(members, line, ks, selected);
  }

  /** Members read off the positions a line's selection holds are exactly
      the members the line selects. */
  lemma SelectionSelectsExactly<E>(members: seq<E>, line: string, ks: seq<nat>, selected: seq<E>)
    requires Selection(line, |members|) == Some(ks)
    requires |selected| == |ks|
    requires forall i :: 0 <= i < |ks| ==> ks[i] < |members| && selected[i] == members[ks[i]]
    ensures SelectsExactly(members, line, selected)
  {
    SelectionIsTyped(line, |members|);
    PositionsSelectExactly(members, line, ks, selected);
  }

  /** Members read off the positions a line's tokens resolve to are exactly
      the members the line selects. */
  lemma PositionsSelectExactly<E>(members: seq<E>, line: string, ks: seq<nat>, selected: seq<E>)
    requires |selected| == |ks|
    requires forall i :: 0 <= i < |ks| ==> ks[i] < |members| && selected[i] == members[ks[i]]
    requires forall t :: t in Split(line, ',') ==> TokenIndex(t, |members|).Some?
    requires forall t :: t in Split(line, ',') ==> TokenIndex(t, |members|).value in ks
    requires forall k :: k in ks ==> exists t :: t in Split(line, ',') && TokenIndex(t, |members|) == Some(k)
    ensures SelectsExactly(members, line, selected)
  {
    var n := |members|;
    forall i | 0 <= i < |selected| ensures SelectedBy(members, line, selected[i]) {
      assert ks[i] in ks;
    }
    forall t | t in Split(line, ',') && TokenIndex(t, n).Some?
      ensures members[TokenIndex(t, n).value] in selected
    {
      var i :| 0 <= i < |ks| && ks[i] == TokenIndex(t, n).value;
      assert selected[i] == members[ks[i]];
    }
  }

  /** A line of nothing but commas selects no member. */
  lemma OnlyBlankTokens<E>(members: seq<E>, line: string)
    requires |Tokens(line)| == 1 && Tokens(line)[0] == ""
    ensures SelectsExactly(members, line, [])
  {
    forall t | t in Split(line, ',') ensures TokenIndex(t, |members|).None? {
      TokensSpec(line);
      assert t in ToSet(Split(line, ','));
      assert t in ToSet(Tokens(line));
      assert t == "";
      PyIntBlank("");
      TrimBlank(StripSpaces, "");
    }
  }

  /** The members in `xs` are exactly those some token of the line
      selects, counting from the end for negative numbers. */
  ghost predicate SelectsExactly<E>(members: seq<E>, line: string, xs: seq<E>) {
    && (forall i :: 0 <= i < |xs| ==> SelectedBy(members, line, xs[i]))
    && (forall t :: t in Split(line, ',') && TokenIndex(t, |members|).Some? ==>
          members[TokenIndex(t, |members|).value] in xs)
  }

  /** Some comma-separated token of the line selects member `x`. */
  ghost predicate SelectedBy<E>(members: seq<E>, line: string, x: E) {
    exists t :: t in Split(line, ',') && TokenIndex(t, |members|).Some? && members[TokenIndex(t, |members|).value] == x
  }

  /** `ask_allergies`. */
  function AskAllergies(lines: seq<string>, at: nat): (r: Option<Answer<seq<Allergen>>>)
    ensures r.Some? ==> at < r.value.next <= |lines|
  {
    AllergenDictValues();
    AskMembers(AllergenDict(), Allergens, AllergenFromName, lines, at)
  }

  /** The subscription lengths `ask_duration` offers, in days. */
  const Durations: Dict<string, int> := [("1 week", 7), ("2 weeks", 14), ("4 weeks", 28)]

  /** A subscription from day `start` to day `end`. */
  datatype Span = Span(start: int, end: int)

  /** `ask_duration` with the corrected date question: a starting date that
      is not in the past, then a length; the ending date is the start plus
      that many days. */
  function AskDuration(lines: seq<string>, at: nat, now: Clock): (r: Option<Answer<Span>>)
    ensures r.Some? ==> at < r.value.next <= |lines|
  {
    match AskDate(lines, at, now, true)
    case None => None
    case Some(s) =>
      match AskChoice(Durations, lines, s.next)
      case None => None
      case Some(d) =>
        var start := Ordinal(s.value);
        Some(Answer(Span(start, start + d.value.value), d.next))
  }

  /** `ask_duration` as the program has it, calling the date question as
      written: 0-based months, and a retry that forgets `future_only`. */
  function AskDurationAsWritten(lines: seq<string>, at: nat, now: Clock): Option<Answer<Span>>
  {
    match AskDateAsWritten(lines, at, now, true)
    case None => None
    case Some(s) =>
      match AskChoice(Durations, lines, s.next)
      case None => None
      case Some(d) =>
        var start := Ordinal(s.value);
        Some(Answer(Span(start, start + d.value.value), d.next))
  }

  /** Later months start later in the year. */
  lemma {:induction false} DaysBeforeMonthMonotone(y: int, m: int, n: int)
    requires 1 <= m <= n <= 12
    ensures DaysBeforeMonth(y, m) <= DaysBeforeMonth(y, n)
    decreases n - m
  {
    if m < n {
      DaysBeforeMonthMonotone(y, m, n - 1);
    }
  }

  /** As written, the ending date is still 7, 14 or 28 days after the start,
      but the start lies in January to November of the current year, and it
      may lie before today (`AsWrittenAcceptsPastDate`). */
  lemma AskDurationAsWrittenSpec(lines: seq<string>, at: nat, now: Clock)
    ensures AskDurationAsWritten(lines, at, now).Some? ==>
              var s := AskDurationAsWritten(lines, at, now).value.value;
              && (s.end - s.start == 7 || s.end - s.start == 14 || s.end - s.start == 28)
              && 1 <= now.year <= 9999
              && DaysBeforeYear(now.year) < s.start <= DaysBeforeYear(now.year) + DaysBeforeMonth(now.year, 12)
  {
    var date := AskDateAsWritten(lines, at, now, true);
    if date.Some? {
      var d := date.value.value;
      AsWrittenNeverDecember(lines, at, now, true);
      AskChoiceSpec(Durations, lines, date.value.next);
      DaysBeforeMonthMonotone(d.year, d.month + 1, 12);
      assert Ordinal(d) <= DaysBeforeYear(d.year) + DaysBeforeMonth(d.year, d.month + 1);
    }
  }

  /** What every answered duration satisfies: the ending date is the start
      plus 7, 14 or 28 days, so strictly after it, and the start is not
      before today. */
  predicate ValidSpan(start: int, end: int, now: Clock) {
    (end - start == 7 || end - start == 14 || end - start == 28) && start >= now.today
  }

  /** Every duration the question accepts is a valid span; the assertion
      that the ending date is after the starting date never fails. */
  lemma AskDurationSpec(lines: seq<string>, at: nat, now: Clock)
    ensures AskDuration(lines, at, now).Some? ==>
              var s := AskDuration(lines, at, now).value.value;
              ValidSpan(s.start, s.end, now) && s.end > s.start
  {
    var date := AskDate(lines, at, now, true);
    if date.Some? {
      AskChoiceSpec(Durations, lines, date.value.next);
    }
  }

  /** An ordinary answer shows the shift: on 1 May 2024, choosing June
      ("6"), day 15 and one week starts the program's subscription on
      15 May, while the corrected question starts it on 15 June. */
  lemma AsWrittenDurationStartsAMonthEarly(lines: seq<string>, now: Clock)
    requires lines == ["6", "15", "1"] && now == Clock(2024, Ordinal(Date(2024, 5, 1)), 0)
    ensures AskDurationAsWritten(lines, 0, now) == Some(Answer(Span(now.today + 14, now.today + 21), 3))
    ensures AskDuration(lines, 0, now) == Some(Answer(Span(now.today + 45, now.today + 52), 3))
  {
    AsWrittenDurationMidMay(lines, now);
    CorrectedDurationMidJune(lines, now);
  }

  lemma AsWrittenDurationMidMay(lines: seq<string>, now: Clock)
    requires lines == ["6", "15", "1"] && now == Clock(2024, Ordinal(Date(2024, 5, 1)), 0)
    ensures AskDurationAsWritten(lines, 0, now) == Some(Answer(Span(now.today + 14, now.today + 21), 3))
  {
    MidMay2024(now);
    AsWrittenReadsJuneAsMay(lines, now);
    OneWeekReply(lines);
  }

  lemma CorrectedDurationMidJune(lines: seq<string>, now: Clock)
    requires lines == ["6", "15", "1"] && now == Clock(2024, Ordinal(Date(2024, 5, 1)), 0)
    ensures AskDuration(lines, 0, now) == Some(Answer(Span(now.today + 45, now.today + 52), 3))
  {
    MidMay2024(now);
    CorrectedReadsJune(lines, now);
    OneWeekReply(lines);
  }

  /** 15 May and 15 June 2024 are 14 and 45 days after 1 May. */
  lemma MidMay2024(now: Clock)
    requires now == Clock(2024, Ordinal(Date(2024, 5, 1)), 0)
    ensures Ordinal(Date(2024, 5, 15)) == now.today + 14
    ensures Ordinal(Date(2024, 6, 15)) == now.today + 45
  {
  }

  /** The reply "6" picks the sixth month name, whichever base the table
      numbers the months from. */
  lemma SixthMonthReply(lines: seq<string>, base: int)
    requires lines == ["6", "15", "1"]
    ensures AskChoice(MonthTable(base), lines, 0) == Some(Answer(Chosen(6, 5 + base), 1))
  {
    MonthTableEntries(base);
    ChoiceNumberOf(6, 12);
  }

  /** The reply "15" is day 15. */
  lemma FifteenthDayReply(lines: seq<string>)
    requires lines == ["6", "15", "1"]
    ensures AskInt(lines, 1) == Some(Answer(15, 2))
  {
    PyIntDecimal(15);
  }

  lemma AsWrittenReadsJuneAsMay(lines: seq<string>, now: Clock)
    requires lines == ["6", "15", "1"] && now == Clock(2024, Ordinal(Date(2024, 5, 1)), 0)
    ensures AskDateAsWritten(lines, 0, now, true) == Some(Answer(Date(2024, 5, 15), 2))
  {
    SixthMonthReply(lines, 0);
    FifteenthDayReply(lines);
    MidMay2024(now);
    assert IsValidDate(Date(2024, 5, 15)) && !InPast(Date(2024, 5, 15), now);
  }

  lemma CorrectedReadsJune(lines: seq<string>, now: Clock)
    requires lines == ["6", "15", "1"] && now == Clock(2024, Ordinal(Date(2024, 5, 1)), 0)
    ensures AskDate(lines, 0, now, true) == Some(Answer(Date(2024, 6, 15), 2))
  {
    SixthMonthReply(lines, 1);
    FifteenthDayReply(lines);
    MidMay2024(now);
    assert IsValidDate(Date(2024, 6, 15)) && !InPast(Date(2024, 6, 15), now);
  }

  lemma OneWeekReply(lines: seq<string>)
    requires lines == ["6", "15", "1"]
    ensures AskChoice(Durations, lines, 2) == Some(Answer(Chosen(1, 7), 3))
  {
    ChoiceNumberOf(1, 3);
  }

  /** `ask_all_questions`: objective, meal type, duration, frequency and
      allergies, in that order; the add-ons question reads nothing. */
  function AskAllQuestions(lines: seq<string>, at: nat, now: Clock): (r: Option<Answer<Preferences>>)
    ensures r.Some? ==> at < r.value.next <= |lines|
  {
    match AskObjective(lines, at)
    case None => None
    case Some(o) =>
      match AskType(lines, o.next)
      case None => None
      case Some(t) =>
        match AskDuration(lines, t.next, now)
        case None => None
        case Some(d) =>
          match AskFrequency(lines, d.next)
          case None => None
          case Some(f) =>
            match AskAllergies(lines, f.next)
            case None => None
            case Some(a) =>
              Some(Answer(Preferences(o.value, t.value, d.value.start, d.value.end, f.value, a.value), a.next))
  }

  /** The preferences the questions produce always have a valid span. */
  predicate ValidPreferences(p: Preferences, now: Clock) {
    ValidSpan(p.start, p.end, now)
  }

  lemma AskAllQuestionsValid(lines: seq<string>, at: nat, now: Clock)
    ensures AskAllQuestions(lines, at, now).Some? ==> ValidPreferences(AskAllQuestions(lines, at, now).value.value, now)
  {
    var o := AskObjective(lines, at);
    if o.Some? {
      var t := AskType(lines, o.value.next);
      if t.Some? {
        AskDurationSpec(lines, t.value.next, now);
      }
    }
  }

  // ---------------------------------------------------------------------------
  // confirm_preferences
  // ---------------------------------------------------------------------------

  /** The preferences the modify loop offers to change. */
  datatype Edit = EditObjective | EditType | EditDuration | EditFrequency | EditAllergies | EditAddOns

  const EditOptions: Dict<string, Edit> :=
    [("Objective", EditObjective), ("Meal Type", EditType), ("Duration", EditDuration),
     ("Frequency", EditFrequency), ("Allergies", EditAllergies), ("Add-ons", EditAddOns)]

  const YesNo: Dict<string, string> := [("Yes", "Yes"), ("No", "No")]

  /** Running the setter an option names. */
  function ApplyEdit(p: Preferences, e: Edit, lines: seq<string>, at: nat, now: Clock): (r: Option<Answer<Preferences>>)
    requires at <= |lines|
    ensures r.Some? ==> at <= r.value.next <= |lines|
  {
    match e
    case EditObjective =>
      (match AskObjective(lines, at)
       case None => None
       case Some(o) => Some(Answer(p.(objective := o.value), o.next)))
    case EditType =>
      (match AskType(lines, at)
       case None => None
       case Some(t) => Some(Answer(p.(mealType := t.value), t.next)))
    case EditDuration =>
      (match AskDuration(lines, at, now)
       case None => None
       case Some(d) => Some(Answer(p.(start := d.value.start, end := d.value.end), d.next)))
    case EditFrequency =>
      (match AskFrequency(lines, at)
       case None => None
       case Some(f) => Some(Answer(p.(frequency := f.value), f.next)))
    case EditAllergies =>
      (match AskAllergies(lines, at)
       case None => None
       case Some(a) => Some(Answer(p.(allergies := a.value), a.next)))
    case EditAddOns => Some(Answer(p, at))
  }

  /** Each setter changes its own preference and no other, and keeps the
      preferences valid. */
  lemma ApplyEditChangesOneField(p: Preferences, e: Edit, lines: seq<string>, at: nat, now: Clock)
    requires at <= |lines|
    ensures ApplyEdit(p, e, lines, at, now).Some? ==>
              var q := ApplyEdit(p, e, lines, at, now).value.value;
              match e
              case EditObjective => q == p.(objective := q.objective)
              case EditType => q == p.(mealType := q.mealType)
              case EditDuration => q == p.(start := q.start, end := q.end) && ValidSpan(q.start, q.end, now)
              case EditFrequency => q == p.(frequency := q.frequency)
              case EditAllergies => q == p.(allergies := q.allergies)
              case EditAddOns => q == p
  {
    if e == EditDuration {
      AskDurationSpec(lines, at, now);
    }
  }

  /** The modify loop: pick a preference, answer its question again, and
      go round while the customer answers "Yes". */
  function ModifyLoop(p: Preferences, lines: seq<string>, at: nat, now: Clock): (r: Option<Answer<Preferences>>)
    ensures r.Some? ==> at < r.value.next <= |lines|
    decreases |lines| - at
  {
    match AskChoice(EditOptions, lines, at)
    case None => None
    case Some(o) =>
      match ApplyEdit(p, o.value.value, lines, o.next, now)
      case None => None
      case Some(q) =>
        match AskChoice(YesNo, lines, q.next)
        case None => None
        case Some(c) =>
          if c.value.value == "Yes" then ModifyLoop(q.value, lines, c.next, now)
          else Some(Answer(q.value, c.next))
  }

  /** `confirm_preferences`: "No" keeps the preferences; "Yes" enters the
      modify loop. */
  function ConfirmPreferences(p: Preferences, lines: seq<string>, at: nat, now: Clock): (r: Option<Answer<Preferences>>)
    ensures r.Some? ==> at < r.value.next <= |lines|
  {
    match AskChoice(YesNo, lines, at)
    case None => None
    case Some(c) =>
      if c.value.value == "Yes" then ModifyLoop(p, lines, c.next, now)
      else Some(Answer(p, c.next))
  }

  /** Answering "No" (choice 2) to the first question keeps the
      preferences as they are. */
  lemma ConfirmNoKeeps(p: Preferences, lines: seq<string>, at: nat, now: Clock)
    requires at < |lines| && lines[at] == "2"
    ensures ConfirmPreferences(p, lines, at, now) == Some(Answer(p, at + 1))
  {
    ChoiceNumberOf(2, 2);
    AskChoiceSpec(YesNo, lines, at);
  }

  /** However many times the customer edits, valid preferences stay
      valid. */
  lemma {:induction false} ModifyLoopKeepsValid(p: Preferences, lines: seq<string>, at: nat, now: Clock)
    requires ValidPreferences(p, now)
    ensures ModifyLoop(p, lines, at, now).Some? ==> ValidPreferences(ModifyLoop(p, lines, at, now).value.value, now)
    decreases |lines| - at
  {
    var o := AskChoice(EditOptions, lines, at);
    if o.Some? {
      var q := ApplyEdit(p, o.value.value.value, lines, o.value.next, now);
      ApplyEditChangesOneField(p, o.value.value.value, lines, o.value.next, now);
      if q.Some? {
        var c := AskChoice(YesNo, lines, q.value.next);
        if c.Some? && c.value.value.value == "Yes" {
          ModifyLoopKeepsValid(q.value.value, lines, c.value.next, now);
        }
      }
    }
  }

  lemma ConfirmKeepsValid(p: Preferences, lines: seq<string>, at: nat, now: Clock)
    requires ValidPreferences(p, now)
    ensures ConfirmPreferences(p, lines, at, now).Some? ==>
              ValidPreferences(ConfirmPreferences(p, lines, at, now).value.value, now)
  {
    var c := AskChoice(YesNo, lines, at);
    if c.Some? && c.value.value.value == "Yes" {
      ModifyLoopKeepsValid(p, lines, c.value.next, now);
    }
  }
}
