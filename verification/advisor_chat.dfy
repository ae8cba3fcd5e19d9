/** The keyword-matching advisor chat of src/components/AIAdvisorChatbot.tsx:
    focus-area detection, the templated reply, the two-phase send protocol
    and the summary of the latest user message. The 600 ms reply delay is
    the explicit event `ReplyDue`. */
module AdvisorChat {
  import opened Wrappers
  import opened JsText

  /** The four focus areas, in the order the detector tests them. */
  datatype FocusArea = Cash | Sales | Time | Ai

  function Rank(a: FocusArea): nat {
    match a
    case Cash => 0
    case Sales => 1
    case Time => 2
    case Ai => 3
  }

  /** The alternatives of each area's regular expression. */
  const CashKeywords: seq<string> := ["資金", "キャッシュ", "cash", "資金繰り"]
  const SalesKeywords: seq<string> := ["売上", "sales", "成長", "受注", "単価"]
  const TimeKeywords: seq<string> := ["時間", "会議", "レポート", "資料", "業務"]
  const AiKeywords: seq<string> := ["ai", "自動化", "分析", "ダッシュボード"]

  /** A regular expression of literal alternatives, tested with the `i`
      flag: some alternative occurs once ASCII capitals are folded (the
      alternatives are all lower case). */
  predicate TestIgnoreCase(text: string, alternatives: seq<string>) {
    exists k :: 0 <= k < |alternatives| && Contains(AsciiLower(text), alternatives[k])
  }

  /** The test that admits an area. The first three run on the message as
      typed; the AI test runs on `message.toLowerCase()`. */
  predicate Mentions(message: string, a: FocusArea): (r: bool)
    ensures a != Ai ==> (r <==> TestIgnoreCase(AsciiLower(message), Keywords(a)))
    ensures a == Ai ==> (r <==> TestIgnoreCase(JsLower(AsciiLower(message)), Keywords(a)))
  {
    AsciiLowerTwice(message);
    JsLowerAfterAscii(message);
    TestIgnoreCase(if a == Ai then JsLower(message) else message, Keywords(a))
  }

  function Keywords(a: FocusArea): seq<string> {
    match a
    case Cash => CashKeywords
    case Sales => SalesKeywords
    case Time => TimeKeywords
    case Ai => AiKeywords
  }

  /** Strictly increasing rank: the detector's fixed order, without
      repetition. */
  predicate InRankOrder(areas: seq<FocusArea>) {
    forall i, j :: 0 <= i < j < |areas| ==> Rank(areas[i]) < Rank(areas[j])
  }

  /** The areas in the order the detector tests them. */
  const AreaOrder: seq<FocusArea> := [Cash, Sales, Time, Ai]

  /** The areas of `areas` that `admits` accepts, kept in their order: the
      detector's chain of `if`s, one per area. */
  function Keep(areas: seq<FocusArea>, admits: FocusArea -> bool): (r: seq<FocusArea>)
    requires InRankOrder(areas)
    ensures |r| <= |areas|
    ensures InRankOrder(r)
    ensures forall a :: a in r <==> a in areas && admits(a)
  {
    if areas == [] then []
    else
      var rest := Keep(areas[1..], admits);
      forall a | a in rest ensures Rank(areas[0]) < Rank(a) {
        var j :| 0 <= j < |areas[1..]| && areas[1..][j] == a;
        assert areas[j + 1] == a;
      }
      if admits(areas[0]) then [areas[0]] + rest else rest
  }

  /** `detectFocusAreas`: the areas the message mentions, in the fixed order
      cash, sales, time, AI, each at most once. */
  function DetectFocusAreas(message: string): (r: seq<FocusArea>)
    ensures |r| <= 4
    ensures InRankOrder(r)
    ensures forall a :: a in r <==> Mentions(message, a)
  {
    AreaOrderComplete();
    Keep(AreaOrder, a => Mentions(message, a))
  }

  /** The detector's order lists every area, by increasing rank. */
  lemma AreaOrderComplete()
    ensures InRankOrder(AreaOrder)
    ensures forall a :: a in AreaOrder
  {
    forall a ensures a in AreaOrder {
      match a
      case Cash => assert AreaOrder[0] == a;
      case Sales => assert AreaOrder[1] == a;
      case Time => assert AreaOrder[2] == a;
      case Ai => assert AreaOrder[3] == a;
    }
  }

  /** Two rank-ordered lists with the same members are the same list. */
  lemma {:induction false} RankOrderUnique(a: seq<FocusArea>, b: seq<FocusArea>)
    requires InRankOrder(a) && InRankOrder(b)
    requires forall x :: x in a <==> x in b
    ensures a == b
    decreases |a|
  {
    assert a != [] ==> a[0] in a;
    assert b != [] ==> b[0] in b;
    if a != [] && b != [] {
      assert a[0] == b[0] by {
        assert a[0] in b && b[0] in a;
        var i :| 0 <= i < |b| && b[i] == a[0];
        var j :| 0 <= j < |a| && a[j] == b[0];
        assert Rank(b[0]) <= Rank(a[0]) <= Rank(b[0]);
        RankInjective(a[0], b[0]);
      }
      forall x
        ensures x in a[1..] <==> x in b[1..]
      {
        OrderedTail(a, x);
        OrderedTail(b, x);
      }
      RankOrderUnique(a[1..], b[1..]);
      assert a == [a[0]] + a[1..] && b == [b[0]] + b[1..];
    }
  }

  lemma RankInjective(x: FocusArea, y: FocusArea)
    requires Rank(x) == Rank(y)
    ensures x == y
  {
  }

  /** In a rank-ordered list the tail holds everything but the head. */
  lemma OrderedTail(a: seq<FocusArea>, x: FocusArea)
    requires InRankOrder(a) && a != []
    ensures x in a[1..] <==> x in a && x != a[0]
  {
    if x in a[1..] {
      var i :| 0 <= i < |a[1..]| && a[1..][i] == x;
      assert a[i + 1] == x;
    }
    if x in a && x != a[0] {
      var i :| 0 <= i < |a| && a[i] == x;
      assert a[1..][i - 1] == x;
    }
  }

  /** The detector's result is the only rank-ordered list of exactly the
      mentioned areas. */
  lemma DetectFocusAreasUnique(message: string, r: seq<FocusArea>)
    requires InRankOrder(r)
    requires forall a :: a in r <==> Mentions(message, a)
    ensures r == DetectFocusAreas(message)
  {
    RankOrderUnique(r, DetectFocusAreas(message));
  }

  /** The AI test is a plain substring test on the lower-cased message. */
  lemma MentionsAiIff(message: string)
    ensures Mentions(message, Ai) <==>
      exists k :: 0 <= k < |AiKeywords| && Contains(JsLower(message), AiKeywords[k])
  {
    AsciiLowerKeeps(JsLower(message));
  }

  /** "email" holds the bare substring "ai", so it counts as an AI topic,
      and as nothing else. */
  lemma EmailCountsAsAi()
    ensures DetectFocusAreas("email") == [Ai]
  {
    EmailMentionsAi();
    EmailMentionsNothingElse();
    DetectFocusAreasUnique("email", [Ai]);
  }

  lemma EmailMentionsAi()
    ensures Mentions("email", Ai)
  {
    EmailLowerCase();
    EmailHoldsAi();
    assert AiKeywords[0] == "ai";
  }

  lemma EmailMentionsNothingElse()
    ensures !Mentions("email", Cash) && !Mentions("email", Sales) && !Mentions("email", Time)
  {
    EmailLacks(Cash);
    EmailLacks(Sales);
    EmailLacks(Time);
  }

  lemma EmailLacks(a: FocusArea)
    requires a != Ai
    ensures !Mentions("email", a)
  {
    var m := "email";
    EmailLowerCase();
    KeywordInitials(a);
    NoKeywordIn(m, Keywords(a));
  }

  /** The keywords of the first three areas start with a character "email"
      does not hold. */
  lemma KeywordInitials(a: FocusArea)
    requires a != Ai
    ensures forall i :: 0 <= i < |Keywords(a)| ==> |Keywords(a)[i]| > 0 && Keywords(a)[i][0] !in "email"
  {
  }

  lemma EmailHoldsAi()
    ensures Contains("email", "ai")
  {
    ContainsInfix("em", "ai", "l");
    assert "em" + "ai" + "l" == "email";
  }

  /** The one place the separate `toLowerCase` matters: the dotted capital
      I lower-cases to "i" and a combining dot, so "Aİ" counts as an AI
      topic although the case-insensitive test on the text as typed would
      not find "ai" in it. */
  lemma DottedCapitalIMentionsAi()
    ensures Mentions("A\U{0130}", Ai)
    ensures !TestIgnoreCase("A\U{0130}", AiKeywords)
  {
    DottedCapitalILowered();
    DottedCapitalIFolded();
  }

  lemma DottedCapitalILowered()
    ensures Mentions("A\U{0130}", Ai)
  {
    var m := "A\U{0130}";
    assert JsLower(m) == "ai\U{0307}";
    ContainsInfix([], "ai", "\U{0307}");
    assert [] + "ai" + "\U{0307}" == "ai\U{0307}";
    AsciiLowerKeeps(JsLower(m));
    assert AiKeywords[0] == "ai";
  }

  lemma DottedCapitalIFolded()
    ensures !TestIgnoreCase("A\U{0130}", AiKeywords)
  {
    var f := AsciiLower("A\U{0130}");
    assert f == "a\U{0130}";
    assert f[..2][1] != "ai"[1];
    assert |f[1..]| < |"ai"|;
    assert !Contains(f, "ai");
    NoKeywordIn(f, AiKeywords[1..]);
    forall k | 1 <= k < |AiKeywords| ensures AiKeywords[k] == AiKeywords[1..][k - 1] { }
  }

  /** A text with no ASCII capital and no U+0130 is already lower case,
      for both kinds of folding. */
  lemma LowerCaseUnchanged(m: string)
    requires NoAsciiUpper(m) && '\U{0130}' !in m
    ensures AsciiLower(m) == m && JsLower(m) == m
  {
    AsciiLowerKeeps(m);
    JsLowerIsAscii(m);
  }

  /** "email" is already lower case. */
  lemma EmailLowerCase()
    ensures AsciiLower("email") == "email" && JsLower("email") == "email"
  {
    var m := "email";
    assert NoAsciiUpper(m);
    assert '\U{0130}' !in m;
    LowerCaseUnchanged(m);
  }

  /** A text holds none of a list of keywords whose first characters it
      never uses. */
  lemma NoKeywordIn(m: string, keywords: seq<string>)
    requires forall i :: 0 <= i < |keywords| ==> |keywords[i]| > 0 && keywords[i][0] !in m
    ensures forall i :: 0 <= i < |keywords| ==> !Contains(m, keywords[i])
  {
    forall i | 0 <= i < |keywords|
      ensures !Contains(m, keywords[i])
    {
      var kw := keywords[i];
      ContainsIff(m, kw);
      forall p: nat
        ensures !OccursAt(m, kw, p)
      {
        if p + |kw| <= |m| {
          assert m[p..p + |kw|][0] == m[p];
          assert m[p] in m;
        }
      }
    }
  }

  /** The area names the headline and the summary badges show. */
  function AreaLabel(a: FocusArea): string {
    match a
    case Cash => "資金繰りとキャッシュ創出"
    case Sales => "売上成長と利益率改善"
    case Time => "意思決定時間の削減と自動化"
    case Ai => "生成AI活用とデータ統合"
  }

  /** The advice paragraph of each area. The wording does not affect the
      logic, so each paragraph is a one-line stand-in naming it. */
  function Suggestion(a: FocusArea): string {
    match a
    case Cash => "cash-advice"
    case Sales => "sales-advice"
    case Time => "time-advice"
    case Ai => "ai-advice"
  }

  const HeadlineSuffix := "にフォーカスした進め方です"
  const FallbackHeadline := "状況をもう少し教えてください"

  /** The fallback paragraph asking for more detail, as a one-line
      stand-in. */
  const FallbackBody := "ask-for-detail"

  /** One bullet line per area, in order. */
  function BulletLines(areas: seq<FocusArea>): (lines: seq<string>)
    ensures |lines| == |areas|
    ensures forall i :: 0 <= i < |areas| ==> lines[i] == "・" + Suggestion(areas[i])
  {
    seq(|areas|, i requires 0 <= i < |areas| => "・" + Suggestion(areas[i]))
  }

  datatype Response = Response(headline: string, body: string, focusAreas: seq<FocusArea>)

  /** No template text holds a line break. */
  lemma TemplatesSingleLine(a: FocusArea)
    ensures '\n' !in AreaLabel(a) + HeadlineSuffix
    ensures '\n' !in "・" + Suggestion(a)
    ensures '\n' !in FallbackHeadline && '\n' !in FallbackBody
  {
    LabelSingleLine(a);
    SuggestionSingleLine(a);
    FixedTextsSingleLine();
  }

  lemma LabelSingleLine(a: FocusArea)
    ensures '\n' !in AreaLabel(a)
  {
    match a
    case Cash =>
    case Sales =>
    case Time =>
    case Ai =>
  }

  lemma SuggestionSingleLine(a: FocusArea)
    ensures '\n' !in Suggestion(a)
  {
    match a
    case Cash =>
    case Sales =>
    case Time =>
    case Ai =>
  }

  lemma FixedTextsSingleLine()
    ensures '\n' !in HeadlineSuffix && '\n' !in "・"
    ensures '\n' !in FallbackHeadline && '\n' !in FallbackBody
  {
  }

  /** `buildResponse`: the fallback text when no area is detected;
      otherwise a headline naming the first area and a body with one
      bullet line per area, in order, joined by line breaks. */
  function BuildResponse(message: string): (r: Response)
    ensures r.focusAreas == DetectFocusAreas(message)
    ensures r.focusAreas == [] ==> r.headline == FallbackHeadline && r.body == FallbackBody
    ensures r.focusAreas != [] ==>
      && AreaLabel(r.focusAreas[0]) <= r.headline
      && Split(r.body, '\n') == BulletLines(r.focusAreas)
  {
    var areas := DetectFocusAreas(message);
    if areas == [] then Response(FallbackHeadline, FallbackBody, areas)
    else
      var lines := BulletLines(areas);
      forall i | 0 <= i < |lines| ensures '\n' !in lines[i] {
        TemplatesSingleLine(areas[i]);
      }
      SplitJoin(lines, '\n');
      var headline := AreaLabel(areas[0]) + HeadlineSuffix;
      Response(headline, Join(lines, '\n'), areas)
  }

  /** The assistant's message text: the headline, a line break, the body.
      Split into lines, it shows the headline alone on the first line and
      then the body's lines. */
  function ReplyText(message: string): (t: string)
    ensures var r := BuildResponse(message);
      Split(t, '\n') == [r.headline] + Split(r.body, '\n')
  {
    var r := BuildResponse(message);
    HeadlineSingleLine(message);
    SplitAfterLine(r.headline, r.body, '\n');
    r.headline + "\n" + r.body
  }

  /** Every headline fits on one line. */
  lemma HeadlineSingleLine(message: string)
    ensures '\n' !in BuildResponse(message).headline
  {
    var r := BuildResponse(message);
    if r.focusAreas == [] {
      FixedTextsSingleLine();
    } else {
      TemplatesSingleLine(r.focusAreas[0]);
      assert r.headline == AreaLabel(r.focusAreas[0]) + HeadlineSuffix;
    }
  }

  /** Displayed line by line (`content.split("\n")`), a reply shows its
      headline and then exactly the body's lines. */
  lemma ReplyLines(message: string)
    ensures var r := BuildResponse(message);
      Split(ReplyText(message), '\n') ==
        [r.headline] + (if r.focusAreas == [] then [FallbackBody] else BulletLines(r.focusAreas))
  {
    var r := BuildResponse(message);
    if r.focusAreas == [] {
      FixedTextsSingleLine();
      assert Split(r.body, '\n') == [FallbackBody];
    }
  }

  datatype Role = Assistant | User

  datatype ChatMessage = ChatMessage(role: Role, content: string)

  /** The conversation, the input box, the "thinking" flag, and the
      trimmed text whose reply timer is pending. Message ids are left out. */
  datatype ChatState = ChatState(
    messages: seq<ChatMessage>,
    input: string,
    thinking: bool,
    pendingReply: Option<string>)

  /** The opening assistant message, as a stand-in text. */
  const Greeting := ChatMessage(Assistant, "greeting")

  const InitialChat := ChatState([Greeting], "", false, None)

  datatype ChatEvent =
    | Type(text: string)
    | SubmitInput
    | QuickPrompt(prompt: string)
    | ReplyDue

  /** `sendMessage`: refuses blank text and refuses while thinking;
      otherwise appends the trimmed text as a user message, starts
      thinking and sets the reply timer. */
  function SendMessage(s: ChatState, content: string): (r: ChatState)
    ensures IsBlank(content) || s.thinking ==> r == s
    ensures !IsBlank(content) && !s.thinking ==>
      && r.messages == s.messages + [ChatMessage(User, Trim(content))]
      && r.thinking && r.pendingReply == Some(Trim(content))
      && r.input == s.input
  {
    var trimmed := Trim(content);
    TrimBlankIff(content);
    if trimmed == [] || s.thinking then s
    else s.(messages := s.messages + [ChatMessage(User, trimmed)], thinking := true,
            pendingReply := Some(trimmed))
  }

  /** The reply timer: appends one assistant message built from the text
      the send captured, and stops thinking. */
  function DeliverReply(s: ChatState): (r: ChatState)
    ensures s.pendingReply.None? ==> r == s
    ensures s.pendingReply.Some? ==>
      && r.messages == s.messages + [ChatMessage(Assistant, ReplyText(s.pendingReply.value))]
      && !r.thinking && r.pendingReply.None? && r.input == s.input
  {
    match s.pendingReply
    case None => s
    case Some(t) =>
      s.(messages := s.messages + [ChatMessage(Assistant, ReplyText(t))], thinking := false,
         pendingReply := None)
  }

  /** One event. Typing is ignored while the input box is disabled; the
      form submit (`submitMessage`) and a quick prompt both empty the input
      box before sending, whether or not the send is accepted. */
  function ChatStep(s: ChatState, e: ChatEvent): (r: ChatState)
    ensures e.Type? ==> r == (if s.thinking then s else s.(input := e.text))
    ensures e.SubmitInput? || e.QuickPrompt? ==> r.input == ""
    ensures e.SubmitInput? || e.QuickPrompt? ==>
      var sent := if e.SubmitInput? then s.input else e.prompt;
      && (IsBlank(sent) || s.thinking ==> r.messages == s.messages && r.thinking == s.thinking)
      && (!IsBlank(sent) && !s.thinking ==>
            r.messages == s.messages + [ChatMessage(User, Trim(sent))] && r.thinking)
  {
    match e
    case Type(text) => if s.thinking then s else s.(input := text)
    case SubmitInput => SendMessage(s.(input := ""), s.input)
    case QuickPrompt(prompt) => SendMessage(s.(input := ""), prompt)
    case ReplyDue => DeliverReply(s)
  }

  /** Where the last user message sits, if there is one
      (`[...messages].reverse().find(...)`). */
  function LatestUserAt(ms: seq<ChatMessage>): (r: Option<nat>)
    ensures r.None? <==> forall i :: 0 <= i < |ms| ==> ms[i].role != User
    ensures r.Some? ==> r.value < |ms| && ms[r.value].role == User
    ensures r.Some? ==> forall j :: r.value < j < |ms| ==> ms[j].role != User
  {
    if ms == [] then None
    else if ms[|ms| - 1].role == User then Some(|ms| - 1)
    else
      var init := ms[..|ms| - 1];
      assert forall i :: 0 <= i < |init| ==> init[i] == ms[i];
      LatestUserAt(init)
  }

  /** The last user message's text, if any. */
  function LatestUser(ms: seq<ChatMessage>): (r: Option<string>)
    ensures r.None? <==> forall i :: 0 <= i < |ms| ==> ms[i].role != User
    ensures r.Some? ==> exists i :: 0 <= i < |ms| && ms[i] == ChatMessage(User, r.value)
                                   && forall j :: i < j < |ms| ==> ms[j].role != User
  {
    match LatestUserAt(ms)
    case None => None
    case Some(i) => assert ms[i] == ChatMessage(User, ms[i].content); Some(ms[i].content)
  }

  /** `assistantSummary`: the response to the latest user message, or none
      before the first one. */
  function Summary(ms: seq<ChatMessage>): (r: Option<Response>)
    ensures r.None? <==> forall i :: 0 <= i < |ms| ==> ms[i].role != User
    ensures r.Some? ==> LatestUser(ms).Some? && r.value == BuildResponse(LatestUser(ms).value)
    ensures r.Some? ==> exists i :: 0 <= i < |ms| && ms[i].role == User
                                   && r.value == BuildResponse(ms[i].content)
                                   && forall j :: i < j < |ms| ==> ms[j].role != User
  {
    match LatestUser(ms)
    case None => None
    case Some(c) => Some(BuildResponse(c))
  }

  /** What every reachable chat state satisfies: a pending reply belongs to
      the last message, a user message holding that trimmed text; the input
      is empty while thinking. */
  ghost predicate ChatInv(s: ChatState) {
    && (s.thinking <==> s.pendingReply.Some?)
    && (s.thinking ==> s.input == "")
    && (s.pendingReply.Some? ==>
          |s.messages| > 0 && s.messages[|s.messages| - 1] == ChatMessage(User, s.pendingReply.value))
  }

  lemma ChatStepInv(s: ChatState, e: ChatEvent)
    requires ChatInv(s)
    ensures ChatInv(ChatStep(s, e))
  {
    match e
    case Type(_) =>
    case SubmitInput => SendKeepsInv(s.(input := ""), s.input);
    case QuickPrompt(p) => SendKeepsInv(s.(input := ""), p);
    case ReplyDue =>
  }

  /** The chat opens idle, showing only the greeting, with no summary. */
  lemma InitialChatInv()
    ensures ChatInv(InitialChat)
    ensures Summary(InitialChat.messages).None?
  {
  }

  /** A sequence of chat events. */
  function ChatRun(s: ChatState, events: seq<ChatEvent>): ChatState
    decreases |events|
  {
    if events == [] then s else ChatRun(ChatStep(s, events[0]), events[1..])
  }

  lemma {:induction false} ChatRunInv(s: ChatState, events: seq<ChatEvent>)
    requires ChatInv(s)
    ensures ChatInv(ChatRun(s, events))
    decreases |events|
  {
    if events != [] {
      ChatStepInv(s, events[0]);
      ChatRunInv(ChatStep(s, events[0]), events[1..]);
    }
  }

  /** Every state the chat reaches from its opening state satisfies the
      invariant, so the lemmas that assume it apply to all of them. */
  lemma ChatReachableInv(events: seq<ChatEvent>)
    ensures ChatInv(ChatRun(InitialChat, events))
  {
    InitialChatInv();
    ChatRunInv(InitialChat, events);
  }

  /** A send from an empty input box keeps the invariant. */
  lemma SendKeepsInv(s: ChatState, content: string)
    requires ChatInv(s) && s.input == ""
    ensures ChatInv(SendMessage(s, content))
  {
  }

  /** The reply answers the message the summary describes: when the reply
      is delivered, its text is the summary's headline and body. */
  lemma ReplyMatchesSummary(s: ChatState)
    requires ChatInv(s) && s.pendingReply.Some?
    ensures var r := DeliverReply(s);
      && Summary(r.messages) == Summary(s.messages)
      && Summary(s.messages) == Some(BuildResponse(s.pendingReply.value))
      && r.messages[|r.messages| - 1].content ==
           Summary(s.messages).value.headline + "\n" + Summary(s.messages).value.body
  {
    var t := s.pendingReply.value;
    var reply := ChatMessage(Assistant, ReplyText(t));
    LatestUserSkips(s.messages, reply);
    LatestUserAtEnd(s.messages);
  }

  /** An assistant message does not change which user message is latest. */
  lemma LatestUserSkips(ms: seq<ChatMessage>, m: ChatMessage)
    requires m.role != User
    ensures LatestUser(ms + [m]) == LatestUser(ms)
  {
    assert (ms + [m])[..|ms|] == ms;
  }

  /** A trailing user message is the latest one. */
  lemma LatestUserAtEnd(ms: seq<ChatMessage>)
    requires |ms| > 0 && ms[|ms| - 1].role == User
    ensures LatestUser(ms) == Some(ms[|ms| - 1].content)
  {
  }

  /** An accepted send makes its trimmed text the summarised message. */
  lemma SummaryAfterSend(s: ChatState, content: string)
    requires !IsBlank(content) && !s.thinking
    ensures Summary(SendMessage(s, content).messages) == Some(BuildResponse(Trim(content)))
  {
  }
}
