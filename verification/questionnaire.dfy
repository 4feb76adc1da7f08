/** The terminal question helpers of questionnaire_utils.py. The console is
    the sequence of lines the customer will type; every helper reads lines
    until one is accepted and hands back the value together with the index
    of the first line not yet read. Running out of lines (Python's `EOFError`) gives `None`. */
module Questionnaire {
  import opened Base
  import opened Text
  import opened Dicts
  import opened Calendar

  /** An accepted reply, and the index of the first console line not yet
      read. */
  datatype Answer<T> = Answer(value: T, next: nat)

  // ---------------------------------------------------------------------------
  // ask_question
  // ---------------------------------------------------------------------------

  /** `ask_question(question, str)` reading from line `at`: `str()` accepts
      any line. */
  function AskText(lines: seq<string>, at: nat): (r: Option<Answer<string>>)
    ensures r.Some? <==> at < |lines|
    ensures r.Some? ==> r.value.next == at + 1 && r.value.value == lines[at]
  {
    if at < |lines| then Some(Answer(lines[at], at + 1)) else None
  }

  /** The retry loop every question shares: lines are read from `at` until
      `read` accepts one; `context` is what the reader needs besides the
      line, such as the choices on offer. */
  function Ask<C, T>(read: (C, string) -> Option<T>, context: C, lines: seq<string>, at: nat): (r: Option<Answer<T>>)
    ensures r.Some? ==> at < r.value.next <= |lines|
    decreases |lines| - at
  {
    if at >= |lines| then None
    else match read(context, lines[at])
      case Some(v) => Some(Answer(v, at + 1))
      case None => Ask(read, context, lines, at + 1)
  }

  /** The loop gives up only when no line is accepted; otherwise it stops at
      the first accepted line and hands back what `read` made of it. */
  lemma {:induction false} AskSpec<C, T>(read: (C, string) -> Option<T>, context: C, lines: seq<string>, at: nat)
    ensures Ask(read, context, lines, at).None? <==> forall j :: at <= j < |lines| ==> read(context, lines[j]).None?
    ensures Ask(read, context, lines, at).Some? ==>
              var a := Ask(read, context, lines, at).value;
              && read(context, lines[a.next - 1]) == Some(a.value)
              && forall j :: at <= j < a.next - 1 ==> read(context, lines[j]).None?
    decreases |lines| - at
  {
    if at < |lines| && read(context, lines[at]).None? {
      AskSpec(read, context, lines, at + 1);
    }
  }

  /** `ask_question(question, int)` reading from line `at`: lines are read
      until `int()` accepts one. */
  function AskInt(lines: seq<string>, at: nat): (r: Option<Answer<int>>)
    ensures r.Some? ==> at < r.value.next <= |lines|
  {
    Ask((_: (), line) => PyInt(line), (), lines, at)
  }

  /** `str()` refuses no line, so the text question is the shared retry
      loop with a reader that accepts every line as it is. */
  lemma AskTextIsAsk(lines: seq<string>, at: nat)
    ensures AskText(lines, at) == Ask((_: (), line) => Some(line), (), lines, at)
  {
  }

  /** The integer question gives up only when no line is an integer, and
      otherwise returns the value of the first one. */
  lemma AskIntSpec(lines: seq<string>, at: nat)
    ensures AskInt(lines, at).None? <==> forall j :: at <= j < |lines| ==> PyInt(lines[j]).None?
    ensures AskInt(lines, at).Some? ==>
              var a := AskInt(lines, at).value;
              && PyInt(lines[a.next - 1]) == Some(a.value)
              && forall j :: at <= j < a.next - 1 ==> PyInt(lines[j]).None?
  {
    AskSpec((_: (), line) => PyInt(line), (), lines, at);
  }

  // ---------------------------------------------------------------------------
  // ask_multiple_choice_question
  // ---------------------------------------------------------------------------

  /** `[str(i+1) for i in range(n)]`: the replies a question with `n`
      choices accepts. */
  function ChoiceStrings(n: nat): seq<string> {
    seq(n, i requires 0 <= i < n => Decimal(i + 1))
  }

  /** The choice number a reply selects, if the question accepts it: exactly
      the replies that spell some number from 1 to n in decimal. */
  function ChoiceNumber(reply: string, n: nat): (r: Option<nat>)
    ensures r.Some? ==> 1 <= r.value <= n && reply == Decimal(r.value)
    decreases n
  {
    if n == 0 then None
    else if reply == Decimal(n) then Some(n)
    else ChoiceNumber(reply, n - 1)
  }

  /** A reply is refused exactly when it spells none of the numbers 1 to n. */
  lemma {:induction false} ChoiceNumberRefuses(reply: string, n: nat)
    ensures ChoiceNumber(reply, n).None? <==> forall i :: 1 <= i <= n ==> reply != Decimal(i)
    decreases n
  {
    var r := ChoiceNumber(reply, n);
    if r.Some? {
      assert reply == Decimal(r.value);
    } else if n > 0 {
      ChoiceNumberRefuses(reply, n - 1);
      assert ChoiceNumber(reply, n - 1).None?;
      forall i | 1 <= i <= n ensures reply != Decimal(i) {
        if i < n {
          assert 1 <= i <= n - 1;
        }
      }
    }
  }

  /** A reply is accepted exactly when it is in the list of choice strings,
      and `int()` of an accepted reply is the number it selects. */
  lemma ChoiceNumberAccepts(reply: string, n: nat)
    ensures ChoiceNumber(reply, n).Some? <==> reply in ChoiceStrings(n)
    ensures ChoiceNumber(reply, n).Some? ==> PyInt(reply) == Some(ChoiceNumber(reply, n).value)
  {
    var r := ChoiceNumber(reply, n);
    if r.Some? {
      assert ChoiceStrings(n)[r.value - 1] == reply;
      PyIntDecimal(r.value);
    }
    if reply in ChoiceStrings(n) {
      var i :| 0 <= i < n && ChoiceStrings(n)[i] == reply;
      assert reply == Decimal(i + 1);
      ChoiceNumberRefuses(reply, n);
    }
  }

  /** Typing the decimal number of a choice selects exactly that choice. */
  lemma ChoiceNumberOf(i: nat, n: nat)
    requires 1 <= i <= n
    ensures ChoiceNumber(Decimal(i), n) == Some(i)
  {
    var r := ChoiceNumber(Decimal(i), n);
    DecimalInjective(i, r.value);
  }

  /** A leading zero, a sign or surrounding blanks make a reply unacceptable,
      although `int()` would read it. */
  lemma ChoiceNumberIsExact(i: nat, n: nat)
    ensures ChoiceNumber("0" + Decimal(i), n).None?
    ensures ChoiceNumber("+" + Decimal(i), n).None?
    ensures ChoiceNumber(" " + Decimal(i), n).None?
  {
    ChoiceNumberRefuses("0" + Decimal(i), n);
    ChoiceNumberRefuses("+" + Decimal(i), n);
    ChoiceNumberRefuses(" " + Decimal(i), n);
    forall j | 1 <= j <= n
      ensures "0" + Decimal(i) != Decimal(j) && "+" + Decimal(i) != Decimal(j)
              && " " + Decimal(i) != Decimal(j)
    {
      assert Decimal(j)[0] != '0' && IsDigit(Decimal(j)[0]);
      assert ("0" + Decimal(i))[0] == '0';
      assert ("+" + Decimal(i))[0] == '+';
      assert (" " + Decimal(i))[0] == ' ';
    }
  }

  /** What `ask_multiple_choice_question` hands back: the number typed and
      the value stored under the key shown with that number. */
  datatype Chosen<V> = Chosen(number: nat, value: V)

  /** One line typed at a multiple-choice question. */
  function ReadChoice<V>(choices: Dict<string, V>, line: string): (r: Option<Chosen<V>>)
    ensures r.None? <==> ChoiceNumber(line, |choices|).None?
  {
    match ChoiceNumber(line, |choices|)
    case Some(i) => Some(Chosen(i, choices[i - 1].1))
    case None => None
  }

  /** `ask_multiple_choice_question(question, choices)` reading from line
      `at`: lines are read until one spells a choice number `i`; the result
      is the value of the i-th key in insertion order. */
  function AskChoice<V>(choices: Dict<string, V>, lines: seq<string>, at: nat): Option<Answer<Chosen<V>>>
  {
    Ask(ReadChoice, choices, lines, at)
  }

  /** The choice question gives up only when no line spells a choice number;
      otherwise the first such line decides, and the value is the one
      stored with the key shown under that number. */
  lemma AskChoiceSpec<V>(choices: Dict<string, V>, lines: seq<string>, at: nat)
    ensures AskChoice(choices, lines, at).None? <==>
              forall j :: at <= j < |lines| ==> ChoiceNumber(lines[j], |choices|).None?
    ensures AskChoice(choices, lines, at).Some? ==>
              var a := AskChoice(choices, lines, at).value;
              && ChoiceNumber(lines[a.next - 1], |choices|) == Some(a.value.number)
              && 1 <= a.value.number <= |choices|
              && a.value.value == choices[a.value.number - 1].1
              && forall j :: at <= j < a.next - 1 ==> ChoiceNumber(lines[j], |choices|).None?
  {
    AskChoiceNone(choices, lines, at);
    AskChoiceSome(choices, lines, at);
  }

  lemma AskChoiceNone<V>(choices: Dict<string, V>, lines: seq<string>, at: nat)
    ensures AskChoice(choices, lines, at).None? ==>
              forall j :: at <= j < |lines| ==> ChoiceNumber(lines[j], |choices|).None?
  {
    AskSpec(ReadChoice, choices, lines, at);
    if AskChoice(choices, lines, at).None? {
      forall j | at <= j < |lines| ensures ChoiceNumber(lines[j], |choices|).None? {
        assert ReadChoice(choices, lines[j]).None?;
      }
    }
  }

  lemma AskChoiceSome<V>(choices: Dict<string, V>, lines: seq<string>, at: nat)
    ensures AskChoice(choices, lines, at).Some? ==>
              var a := AskChoice(choices, lines, at).value;
              && ChoiceNumber(lines[a.next - 1], |choices|) == Some(a.value.number)
              && 1 <= a.value.number <= |choices|
              && a.value.value == choices[a.value.number - 1].1
              && forall j :: at <= j < a.next - 1 ==> ChoiceNumber(lines[j], |choices|).None?
  {
    var r := AskChoice(choices, lines, at);
    AskSpec(ReadChoice, choices, lines, at);
    if r.Some? {
      var a := r.value;
      assert ReadChoice(choices, lines[a.next - 1]) == Some(a.value);
      ReadChoiceSome(choices, lines[a.next - 1], a.value);
      forall j | at <= j < a.next - 1 ensures ChoiceNumber(lines[j], |choices|).None? {
        assert ReadChoice(choices, lines[j]).None?;
      }
    }
  }

  lemma ReadChoiceSome<V>(choices: Dict<string, V>, line: string, c: Chosen<V>)
    requires ReadChoice(choices, line) == Some(c)
    ensures ChoiceNumber(line, |choices|) == Some(c.number)
    ensures 1 <= c.number <= |choices| && c.value == choices[c.number - 1].1
  {
  }

  /** In a dict, the value handed back is what `choices[key]` gives for the
      key displayed next to the chosen number. */
  lemma AskChoiceLooksUpKey<V>(choices: Dict<string, V>, lines: seq<string>, at: nat)
    requires IsDict(choices)
    ensures AskChoice(choices, lines, at).Some? ==>
              var c := AskChoice(choices, lines, at).value.value;
              1 <= c.number <= |choices| && Get(choices, Keys(choices)[c.number - 1]) == Some(c.value)
  {
    var r := AskChoice(choices, lines, at);
    AskChoiceSpec(choices, lines, at);
    if r.Some? {
      GetAt(choices, r.value.value.number - 1);
    }
  }

  /** The cell of the two-column layout used for more than four choices:
      the choice shown on the left, and the one on the right if any. */
  datatype Row = Row(left: nat, right: Option<nat>)

  /** Rows printed for `n > 4` choices: `(n + 1) // 2` rows, row `i` showing
      choice `i` on the left and choice `i + (n + 1) // 2` on the right when
      there is one. */
  function LayoutRows(n: nat): seq<Row> {
    var rows := (n + 1) / 2;
    seq(rows, i requires 0 <= i < rows => Row(i, if i + rows < n then Some(i + rows) else None))
  }

  /** The row on which choice `k` appears. */
  function RowOf(n: nat, k: nat): nat {
    var rows := (n + 1) / 2;
    if k < rows then k else k - rows
  }

  /** Every choice appears in the layout, on exactly one row and in exactly
      one column, and nothing else appears. */
  lemma LayoutShowsEachChoiceOnce(n: nat, k: nat)
    requires k < n
    ensures RowOf(n, k) < |LayoutRows(n)|
    ensures var row := LayoutRows(n)[RowOf(n, k)];
            (row.left == k) != (row.right == Some(k))
    ensures forall i :: 0 <= i < |LayoutRows(n)| && i != RowOf(n, k) ==>
              LayoutRows(n)[i].left != k && LayoutRows(n)[i].right != Some(k)
  {
  }

  /** Every cell of the layout shows a real choice, and a right column is
      missing only on the last row of an odd count. */
  lemma LayoutCellsAreChoices(n: nat)
    ensures forall i :: 0 <= i < |LayoutRows(n)| ==>
              LayoutRows(n)[i].left < n
              && (LayoutRows(n)[i].right.Some? ==> LayoutRows(n)[i].right.value < n)
              && (LayoutRows(n)[i].right.None? <==> n % 2 == 1 && i == |LayoutRows(n)| - 1)
  {
  }

  // ---------------------------------------------------------------------------
  // ask_list_question
  // ---------------------------------------------------------------------------

  /** The outcome of one line typed at `ask_list_question`. */
  datatype ListReply<V> = NothingSelected | Selected(values: seq<V>) | Rejected

  /** `xs[k]` for a list of length `n`: the position Python reads, counting
      from the end for negative `k`; `None` where Python raises
      `IndexError`. */
  function PyIndex(k: int, n: nat): (r: Option<nat>)
    ensures r.Some? <==> -(n as int) <= k < n
    ensures r.Some? ==> r.value < n && (r.value == k || r.value == k + n)
  {
    if 0 <= k < n then Some(k)
    else if -(n as int) <= k < 0 then Some(k + n)
    else None
  }

  /** `list(choices.keys())[int(token.strip()) - 1]`: the position a token
      selects; `None` where Python raises `ValueError` or `IndexError`. */
  function TokenIndex(token: string, n: nat): (r: Option<nat>)
    ensures r.Some? ==> r.value < n
  {
    match PyInt(Strip(token))
    case None => None
    case Some(k) => PyIndex(k - 1, n)
  }

  /** Typing a choice number selects that choice, and "0" selects the last
      one. */
  lemma TokenIndexOf(i: nat, n: nat)
    requires 1 <= i <= n
    ensures TokenIndex(Decimal(i), n) == Some(i - 1)
    ensures TokenIndex("0", n) == Some(n - 1)
  {
    PyIntDecimal(i);
    PyIntOfStripped(Decimal(i));
    PyIntDecimal(0);
    PyIntOfStripped("0");
  }

  /** The positions of all tokens, or `None` as soon as one is unusable. */
  function ResolveTokens(tokens: seq<string>, n: nat): (r: Option<seq<nat>>)
    ensures r.Some? ==> forall i :: 0 <= i < |r.value| ==> r.value[i] < n
    decreases |tokens|
  {
    if |tokens| == 0 then Some([])
    else
      var first, rest := TokenIndex(tokens[0], n), ResolveTokens(tokens[1..], n);
      if first.Some? && rest.Some? then Some([first.value] + rest.value) else None
  }

  /** The tokens resolve exactly when each one names a choice, and then
      position by position. */
  lemma {:induction false} ResolveTokensSpec(tokens: seq<string>, n: nat)
    ensures ResolveTokens(tokens, n).Some? <==> forall i :: 0 <= i < |tokens| ==> TokenIndex(tokens[i], n).Some?
    ensures ResolveTokens(tokens, n).Some? ==>
              var ks := ResolveTokens(tokens, n).value;
              |ks| == |tokens| && forall i :: 0 <= i < |tokens| ==> Some(ks[i]) == TokenIndex(tokens[i], n)
    decreases |tokens|
  {
    if |tokens| > 0 {
      var rest := tokens[1..];
      ResolveTokensSpec(rest, n);
      assert forall i :: 0 < i < |tokens| ==> tokens[i] == rest[i - 1];
      var r := ResolveTokens(tokens, n);
      if r.Some? {
        var ks := r.value;
        assert ks == [TokenIndex(tokens[0], n).value] + ResolveTokens(rest, n).value;
        forall i | 0 <= i < |tokens| ensures Some(ks[i]) == TokenIndex(tokens[i], n) {
          if i > 0 {
            assert ks[i] == ResolveTokens(rest, n).value[i - 1];
          }
        }
      } else if TokenIndex(tokens[0], n).Some? {
        var i :| 0 <= i < |rest| && TokenIndex(rest[i], n).None?;
        assert tokens[i + 1] == rest[i];
      }
    }
  }

  /** The distinct comma-separated tokens of a line (`list(set(line.split(',')))`).
      Python leaves their order unspecified; this model keeps first
      occurrences in order, and no contract depends on it. */
  function Tokens(line: string): (tokens: seq<string>)
    ensures |tokens| >= 1
  {
    Dedup(Split(line, ','))
  }

  /** No token is listed twice, and every piece of the line is a token. */
  lemma TokensSpec(line: string)
    ensures Distinct(Tokens(line))
    ensures ToSet(Tokens(line)) == ToSet(Split(line, ','))
  {
    DedupSpec(Split(line, ','));
  }

  /** The positions a line selects, if every token names a choice. */
  function Selection(line: string, n: nat): Option<seq<nat>> {
    ResolveTokens(Tokens(line), n)
  }

  /** `[choices[keys[k]] for k in ks]`: the values at the given positions. */
  function ValuesAt<V>(choices: Dict<string, V>, ks: seq<nat>): (vs: seq<V>)
    requires forall i :: 0 <= i < |ks| ==> ks[i] < |choices|
    ensures |vs| == |ks|
    ensures forall i :: 0 <= i < |ks| ==> vs[i] == choices[ks[i]].1
  {
    if |ks| == 0 then [] else [choices[ks[0]].1] + ValuesAt(choices, ks[1..])
  }

  /** One line typed at `ask_list_question`: only commas (or nothing) selects
      nothing; otherwise every token must name a choice, or the line is
      rejected. */
  function ReadListReply<V>(choices: Dict<string, V>, line: string): ListReply<V> {
    if |Tokens(line)| == 1 && Tokens(line)[0] == "" then NothingSelected
    else match Selection(line, |choices|)
      case None => Rejected
      case Some(ks) => Selected(ValuesAt(choices, ks))
  }

  /** Nothing is selected exactly when the line holds nothing but commas. */
  lemma NothingSelectedIffOnlyCommas<V>(choices: Dict<string, V>, line: string)
    ensures ReadListReply(choices, line).NothingSelected? <==> forall k :: 0 <= k < |line| ==> line[k] == ','
  {
    SplitAllEmpty(line, ',');
    DedupSingleton(Split(line, ','), "");
  }

  /** The selection is usable exactly when every typed token names a
      choice, and then it holds the choice of every token and nothing
      else. */
  lemma SelectionIsTyped(line: string, n: nat)
    ensures Selection(line, n).Some? <==> forall t :: t in Split(line, ',') ==> TokenIndex(t, n).Some?
    ensures Selection(line, n).Some? ==>
              (forall t :: t in Split(line, ',') ==> TokenIndex(t, n).value in Selection(line, n).value)
              && (forall k :: k in Selection(line, n).value ==>
                    exists t :: t in Split(line, ',') && TokenIndex(t, n) == Some(k))
  {
    var tokens := Tokens(line);
    TokensSpec(line);
    ResolveTokensSpec(tokens, n);
    assert forall t :: t in Split(line, ',') <==> t in tokens by {
      assert forall t :: t in Split(line, ',') <==> t in ToSet(Split(line, ','));
      assert forall t :: t in tokens <==> t in ToSet(tokens);
    }
    var r := Selection(line, n);
    if r.Some? {
      forall t | t in Split(line, ',') ensures TokenIndex(t, n).value in r.value {
        var i :| 0 <= i < |tokens| && tokens[i] == t;
        assert Some(r.value[i]) == TokenIndex(t, n);
      }
      forall k | k in r.value ensures exists t :: t in Split(line, ',') && TokenIndex(t, n) == Some(k) {
        var i :| 0 <= i < |r.value| && r.value[i] == k;
        assert tokens[i] in tokens;
      }
    } else {
      var i :| 0 <= i < |tokens| && TokenIndex(tokens[i], n).None?;
      assert tokens[i] in tokens;
    }
  }

  /** The values a reply hands back, or `None` when it is rejected. */
  function Accepted<V>(reply: ListReply<V>): (r: Option<seq<V>>)
    ensures r.None? <==> reply.Rejected?
  {
    match reply
    case NothingSelected => Some([])
    case Selected(vs) => Some(vs)
    case Rejected => None
  }

  /** One line typed at a list question: the values it selects, or `None`
      when it is rejected. */
  function ReadList<V>(choices: Dict<string, V>, line: string): (r: Option<seq<V>>)
    ensures r.None? <==> ReadListReply(choices, line).Rejected?
  {
    Accepted(ReadListReply(choices, line))
  }

  /** A line that is read and holds some token has a selection. */
  lemma ReadListSelection<V>(choices: Dict<string, V>, line: string)
    requires ReadList(choices, line).Some? && !(|Tokens(line)| == 1 && Tokens(line)[0] == "")
    ensures Selection(line, |choices|).Some?
  {
  }

  /** `ask_list_question(question, choices)` reading from line `at`: lines
      are read until one is not rejected; a line of commas gives the empty
      selection. */
  function AskList<V>(choices: Dict<string, V>, lines: seq<string>, at: nat): Option<Answer<seq<V>>>
  {
    Ask(ReadList, choices, lines, at)
  }

  /** The list question gives up only when every line is rejected;
      otherwise the first line not rejected decides the selection. */
  lemma AskListSpec<V>(choices: Dict<string, V>, lines: seq<string>, at: nat)
    ensures AskList(choices, lines, at).None? <==>
              forall j :: at <= j < |lines| ==> ReadListReply(choices, lines[j]).Rejected?
    ensures AskList(choices, lines, at).Some? ==>
              var a := AskList(choices, lines, at).value;
              && Accepted(ReadListReply(choices, lines[a.next - 1])) == Some(a.value)
              && forall j :: at <= j < a.next - 1 ==> ReadListReply(choices, lines[j]).Rejected?
  {
    AskListNone(choices, lines, at);
    AskListSome(choices, lines, at);
  }

  lemma AskListNone<V>(choices: Dict<string, V>, lines: seq<string>, at: nat)
    ensures AskList(choices, lines, at).None? <==>
              forall j :: at <= j < |lines| ==> ReadListReply(choices, lines[j]).Rejected?
  {
    AskSpec(ReadList, choices, lines, at);
    forall j | at <= j < |lines|
      ensures ReadList(choices, lines[j]).None? <==> ReadListReply(choices, lines[j]).Rejected?
    {
    }
  }

  lemma AskListSome<V>(choices: Dict<string, V>, lines: seq<string>, at: nat)
    ensures AskList(choices, lines, at).Some? ==>
              var a := AskList(choices, lines, at).value;
              && Accepted(ReadListReply(choices, lines[a.next - 1])) == Some(a.value)
              && forall j :: at <= j < a.next - 1 ==> ReadListReply(choices, lines[j]).Rejected?
  {
    var r := AskList(choices, lines, at);
    AskSpec(ReadList, choices, lines, at);
    if r.Some? {
      var a := r.value;
      assert ReadList(choices, lines[a.next - 1]) == Some(a.value);
      forall j | at <= j < a.next - 1 ensures ReadListReply(choices, lines[j]).Rejected? {
        assert ReadList(choices, lines[j]).None?;
      }
    }
  }

  /** The selection the list question hands back is what its last line
      read selects. */
  lemma AskListAnswer<V>(choices: Dict<string, V>, lines: seq<string>, at: nat)
    ensures AskList(choices, lines, at).Some? ==>
              var a := AskList(choices, lines, at).value;
              ReadList(choices, lines[a.next - 1]) == Some(a.value)
  {
    AskListSome(choices, lines, at);
  }

  // ---------------------------------------------------------------------------
  // ask_datetime_question
  // ---------------------------------------------------------------------------

  const MonthNames: seq<string> :=
    ["January", "February", "March", "April", "May", "June", "July",
     "August", "September", "October", "November", "December"]

  /** No month name is listed twice. */
  lemma MonthNamesDistinct()
    ensures forall i, j :: 0 <= i < j < 12 ==> MonthNames[i] != MonthNames[j]
  {
  }

  /** The month table `{month: i + base for i, month in enumerate(...)}`. */
  function MonthTable(base: int): Dict<string, int> {
    Comprehension(seq(12, i requires 0 <= i < 12 => (MonthNames[i], i + base)))
  }

  /** The month table lists every name once, in calendar order, with its
      position plus `base`. */
  lemma MonthTableEntries(base: int)
    ensures |MonthTable(base)| == 12 && IsDict(MonthTable(base))
    ensures forall i :: 0 <= i < 12 ==> MonthTable(base)[i] == (MonthNames[i], i + base)
  {
    var pairs := seq(12, i requires 0 <= i < 12 => (MonthNames[i], i + base));
    MonthNamesDistinct();
    assert IsDict(pairs);
    ComprehensionOfDistinctKeys(pairs);
  }

  /** The month table as the program builds it: each name maps to its
      0-based position. */
  function MonthsAsWritten(): Dict<string, int> {
    MonthTable(0)
  }

  /** The month table `datetime` needs: each name maps to its month
      number, 1 for January to 12 for December. */
  function Months(): Dict<string, int> {
    MonthTable(1)
  }

  /** Every name of the intended table looks up its month number. */
  lemma MonthsLookUp(i: nat)
    requires i < 12
    ensures Get(Months(), MonthNames[i]) == Some(i + 1)
  {
    MonthTableEntries(1);
    GetAt(Months(), i);
  }

  /** The clock reading `datetime.now()` gives: the current year, today's
      ordinal and the microseconds since midnight. */
  datatype Clock = Clock(year: int, today: int, time: nat)

  /** `datetime(year, month, day) < datetime.now()` for a valid date, which
      stands for midnight of that day. */
  predicate InPast(d: Date, now: Clock)
    requires IsValidDate(d)
  {
    Ordinal(d) < now.today || (Ordinal(d) == now.today && now.time > 0)
  }

  /** The date question, parameterised by the two points where the program
      and its evident intent differ: the month table, and whether a retry
      keeps asking for a date in the future. Each round reads a month choice
      and a day; an invalid date, or a past one while only future dates are
      wanted, asks again. */
  function AskDateWith(table: Dict<string, int>, retryKeepsFuture: bool,
                       lines: seq<string>, at: nat, now: Clock, futureOnly: bool): (r: Option<Answer<Date>>)
    ensures r.Some? ==> IsValidDate(r.value.value) && r.value.value.year == now.year
    ensures r.Some? ==> at < r.value.next <= |lines|
    ensures r.Some? && futureOnly && retryKeepsFuture ==> !InPast(r.value.value, now)
    decreases |lines| - at
  {
    match AskChoice(table, lines, at)
    case None => None
    case Some(month) =>
      match AskInt(lines, month.next)
      case None => None
      case Some(day) =>
        var d := Date(now.year, month.value.value, day.value);
        if IsValidDate(d) && !(futureOnly && InPast(d, now)) then Some(Answer(d, day.next))
        else AskDateWith(table, retryKeepsFuture, lines, day.next, now, retryKeepsFuture && futureOnly)
  }

  /** `ask_datetime_question(question, future_only)` as the program has it:
      0-based months, and the retry drops `future_only`. */
  function AskDateAsWritten(lines: seq<string>, at: nat, now: Clock, futureOnly: bool): (r: Option<Answer<Date>>)
    ensures r.Some? ==> IsValidDate(r.value.value) && r.value.value.year == now.year
  {
    AskDateWith(MonthsAsWritten(), false, lines, at, now, futureOnly)
  }

  /** The date question as evidently intended: months numbered from 1, and
      a retry still asks for a date in the future. */
  function AskDate(lines: seq<string>, at: nat, now: Clock, futureOnly: bool): (r: Option<Answer<Date>>)
    ensures r.Some? ==> IsValidDate(r.value.value) && r.value.value.year == now.year
    ensures r.Some? ==> at < r.value.next <= |lines|
    ensures r.Some? && futureOnly ==> !InPast(r.value.value, now)
  {
    AskDateWith(Months(), true, lines, at, now, futureOnly)
  }

  /** As written, the choice shown as "January" yields month 0, which
      `datetime` rejects. */
  lemma AsWrittenJanuaryIsInvalid(day: int)
    ensures Get(MonthsAsWritten(), "January") == Some(0)
    ensures !IsValidDate(Date(2024, 0, day))
  {
    MonthTableEntries(0);
    GetAt(MonthsAsWritten(), 0);
  }

  /** As written, the choice shown as "December" yields 11, the number of
      November. */
  lemma AsWrittenDecemberIsNovember()
    ensures Get(MonthsAsWritten(), "December") == Some(11)
    ensures MonthNames[11 - 1] == "November"
  {
    MonthTableEntries(0);
    GetAt(MonthsAsWritten(), 11);
  }

  /** As written, December can never be answered: every date the question
      returns lies in January to November. */
  lemma {:induction false} AsWrittenNeverDecember(lines: seq<string>, at: nat, now: Clock, futureOnly: bool)
    ensures AskDateAsWritten(lines, at, now, futureOnly).Some? ==>
              AskDateAsWritten(lines, at, now, futureOnly).value.value.month <= 11
  {
    MonthTableEntries(0);
    AsWrittenMonths(false, lines, at, now, futureOnly);
  }

  /** As written, the month a choice yields is at most 11. */
  lemma AsWrittenMonthChoice(lines: seq<string>, at: nat)
    ensures AskChoice(MonthsAsWritten(), lines, at).Some? ==>
              0 <= AskChoice(MonthsAsWritten(), lines, at).value.value.value <= 11
  {
    MonthTableEntries(0);
    AskChoiceSpec(MonthsAsWritten(), lines, at);
  }

  lemma {:induction false} AsWrittenMonths(retryKeepsFuture: bool, lines: seq<string>, at: nat, now: Clock, futureOnly: bool)
    ensures AskDateWith(MonthsAsWritten(), retryKeepsFuture, lines, at, now, futureOnly).Some? ==>
              AskDateWith(MonthsAsWritten(), retryKeepsFuture, lines, at, now, futureOnly).value.value.month <= 11
    decreases |lines| - at
  {
    var month := AskChoice(MonthsAsWritten(), lines, at);
    AsWrittenMonthChoice(lines, at);
    if month.Some? {
      var day := AskInt(lines, month.value.next);
      if day.Some? {
        var d := Date(now.year, month.value.value.value, day.value.value);
        if !(IsValidDate(d) && !(futureOnly && InPast(d, now))) {
          AsWrittenMonths(retryKeepsFuture, lines, day.value.next, now, retryKeepsFuture && futureOnly);
        }
      }
    }
  }

  /** As written, one invalid answer is enough to make the question accept a
      date in the past although only future dates were asked for: on
      1 June 2024, "1" (January, read as month 0) then day 5 is refused,
      and the retry accepts "2" (February, read as January) and day 1. */
  lemma AsWrittenAcceptsPastDate()
    ensures var now := Clock(2024, Ordinal(Date(2024, 6, 1)), 0);
            var r := AskDateAsWritten(["1", "5", "2", "1"], 0, now, true);
            r.Some? && r.value.value == Date(2024, 1, 1) && InPast(r.value.value, now)
  {
    var now := Clock(2024, Ordinal(Date(2024, 6, 1)), 0);
    var lines := ["1", "5", "2", "1"];
    AsWrittenReadsMonths(lines);
    AsWrittenReadsDays(lines);
    assert !IsValidDate(Date(2024, 0, 5));
    OrdinalOfNewYear2024();
    OrdinalOfJune2024();
  }

  lemma AsWrittenReadsMonths(lines: seq<string>)
    requires lines == ["1", "5", "2", "1"]
    ensures AskChoice(MonthsAsWritten(), lines, 0) == Some(Answer(Chosen(1, 0), 1))
    ensures AskChoice(MonthsAsWritten(), lines, 2) == Some(Answer(Chosen(2, 1), 3))
  {
    MonthTableEntries(0);
    ChoiceNumberOf(1, 12);
    ChoiceNumberOf(2, 12);
  }

  lemma AsWrittenReadsDays(lines: seq<string>)
    requires lines == ["1", "5", "2", "1"]
    ensures AskInt(lines, 1) == Some(Answer(5, 2))
    ensures AskInt(lines, 3) == Some(Answer(1, 4))
  {
    PyIntDecimal(5);
    PyIntDecimal(1);
  }
}
