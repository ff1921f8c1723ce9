/** The bounded tool loop of the AI gateway: an untrusted model answers, may propose tools, and is
    forced to a final answer once its rounds are used up. */
module ToolLoop {

  datatype Option<T> = None | Some(value: T)

  datatype Role = System | User | Assistant

  /** `nudge` says whether the final-round notice is appended to the content. */
  datatype Message = Message(role: Role, content: string, nudge: bool)

  datatype Proposal = Proposal(tool: string, arguments: string)

  /** A tool's own result: serialised data on success, otherwise an error with an optional status. */
  datatype ToolResult = ToolResult(ok: bool, payload: string, status: string, error: string)

  datatype Event = Executed(tool: string, ok: bool) | Unknown(tool: string)

  /** What one completion request yields: text, or a failing inference server. */
  datatype Reply = Text(answer: string) | Unavailable

  datatype Failure = ProtocolError | InferenceDown

  datatype Outcome =
    | Answered(text: string, rounds: nat, events: seq<Event>, messages: seq<Message>)
    | Failed(failure: Failure, rounds: nat, events: seq<Event>, messages: seq<Message>)

  /** The model and the tools are arbitrary: replies and results may depend on the round in any way.
      `parse` is the tool-fence parser, which also may be any partial function; `listing` names the
      enabled tools for the model. */
  datatype World = World(reply: (nat, seq<Message>) -> Reply, parse: string -> Option<Proposal>,
                         execute: (nat, Proposal) -> ToolResult, enabled: set<string>, listing: string)

  // ---------------------------------------------------------------- one round

  const RESULT_LIMIT: nat := 6000

  /** What a tool result contributes to the next prompt, cut off at the limit. */
  function ResultText(r: ToolResult): string {
    var text :=
      if r.ok then r.payload
      else "ERROR" + (if r.status == "" then "" else " [" + r.status + "]") + ": " + r.error;
    if |text| <= RESULT_LIMIT then text else text[..RESULT_LIMIT]
  }

  function UnknownToolText(tool: string, listing: string): string {
    "ERROR: unknown tool: " + tool + ". Available tools: " + listing
  }

  /** The two messages and the event a proposal adds in round `n`. */
  function Exchange(w: World, n: nat, answer: string, p: Proposal, last: bool): (Message, Message, Event) {
    if p.tool !in w.enabled then
      (Message(Assistant, answer, false), Message(User, UnknownToolText(p.tool, w.listing), last), Unknown(p.tool))
    else
      var r := w.execute(n, p);
      (Message(Assistant, answer, false), Message(User, ResultText(r), last), Executed(p.tool, r.ok))
  }

  /** The conversation after `n` rounds that all proposed a tool; `None` when one of them did not. */
  ghost function History(w: World, budget: nat, start: seq<Message>, n: nat): Option<(seq<Message>, seq<Event>)> {
    if n == 0 then Some((start, []))
    else
      match History(w, budget, start, n - 1)
      case None => None
      case Some((messages, events)) =>
        match w.reply(n, messages)
        case Unavailable => None
        case Text(answer) =>
          match w.parse(answer)
          case None => None
          case Some(p) =>
            var x := Exchange(w, n, answer, p, n >= budget);
            Some((messages + [x.0, x.1], events + [x.2]))
  }

  /** The tools that were run, in order. */
  function Runs(events: seq<Event>): seq<string> {
    if events == [] then []
    else
      var rest, last := Runs(events[..|events| - 1]), events[|events| - 1];
      if last.Executed? then rest + [last.tool] else rest
  }

  /** Messages that carry the final-round notice. */
  function NudgeCount(messages: seq<Message>): nat {
    if messages == [] then 0
    else NudgeCount(messages[..|messages| - 1]) + (if messages[|messages| - 1].nudge then 1 else 0)
  }

  lemma {:induction false} HistorySizes(w: World, budget: nat, start: seq<Message>, n: nat)
    requires History(w, budget, start, n).Some?
    ensures var (messages, events) := History(w, budget, start, n).value;
            && |messages| == |start| + 2 * n && |events| == n && start <= messages
            && |Runs(events)| <= n && forall t | t in Runs(events) :: t in w.enabled
  {
    if n > 0 {
      HistorySizes(w, budget, start, n - 1);
      var (messages, events) := History(w, budget, start, n).value;
      assert events[..|events| - 1] == History(w, budget, start, n - 1).value.1;
    }
  }

  /** Earlier rounds of a history are histories. */
  lemma {:induction false} HistoryPrefix(w: World, budget: nat, start: seq<Message>, k: nat, n: nat)
    requires k <= n && History(w, budget, start, n).Some?
    ensures History(w, budget, start, k).Some?
    ensures History(w, budget, start, k).value.0 <= History(w, budget, start, n).value.0
    decreases n
  {
    if k < n {
      HistoryPrefix(w, budget, start, k, n - 1);
    }
  }

  lemma NudgeCountTwo(messages: seq<Message>, x: Message, y: Message)
    ensures NudgeCount(messages + [x, y]) ==
            NudgeCount(messages) + (if x.nudge then 1 else 0) + (if y.nudge then 1 else 0)
  {
    var all := messages + [x, y];
    assert all[..|all| - 1] == messages + [x];
    assert (messages + [x])[..|messages|] == messages;
  }

  /** The notice goes out with round `budget` and not before. */
  lemma {:induction false} HistoryNudges(w: World, budget: nat, start: seq<Message>, n: nat)
    requires budget >= 1 && n <= budget && History(w, budget, start, n).Some?
    ensures NudgeCount(History(w, budget, start, n).value.0) == NudgeCount(start) + (if n == budget then 1 else 0)
  {
    if n > 0 {
      HistoryNudges(w, budget, start, n - 1);
      var (messages, events) := History(w, budget, start, n - 1).value;
      var answer := w.reply(n, messages).answer;
      var x := Exchange(w, n, answer, w.parse(answer).value, n >= budget);
      NudgeCountTwo(messages, x.0, x.1);
    }
  }

  /** Round `k` of a transcript: the model's reply to everything before it, then what the tool said,
      with the final-round notice in round `budget` only; the event names the tool and how it went.
      A tool is run exactly when it is enabled. */
  ghost predicate RoundAt(w: World, budget: nat, start: seq<Message>, messages: seq<Message>, events: seq<Event>,
                          k: nat) {
    var i := |start| + 2 * k;
    && i + 1 < |messages| && k < |events|
    && messages[i].role == Assistant && !messages[i].nudge
    && w.reply(k + 1, messages[..i]) == Text(messages[i].content)
    && w.parse(messages[i].content).Some?
    && var p := w.parse(messages[i].content).value;
    && messages[i + 1].role == User && (messages[i + 1].nudge <==> k + 1 == budget)
    && if p.tool in w.enabled then
         var r := w.execute(k + 1, p);
         var status := if r.status == "" then "" else " [" + r.status + "]";
         var text := if r.ok then r.payload else "ERROR" + status + ": " + r.error;
         && events[k] == Executed(p.tool, r.ok)
         && messages[i + 1].content == if |text| <= 6000 then text else text[..6000]
       else
         && events[k] == Unknown(p.tool)
         && messages[i + 1].content == "ERROR: unknown tool: " + p.tool + ". Available tools: " + w.listing
  }

  lemma {:induction false} HistoryRounds(w: World, budget: nat, start: seq<Message>, n: nat, k: nat)
    requires k < n <= budget && History(w, budget, start, n).Some?
    ensures RoundAt(w, budget, start, History(w, budget, start, n).value.0, History(w, budget, start, n).value.1, k)
  {
    HistorySizes(w, budget, start, n);
    HistorySizes(w, budget, start, n - 1);
    var (messages, events) := History(w, budget, start, n).value;
    var (before, earlier) := History(w, budget, start, n - 1).value;
    assert before == messages[..|start| + 2 * (n - 1)];
    if k < n - 1 {
      HistoryRounds(w, budget, start, n - 1, k);
      assert before[..|start| + 2 * k] == messages[..|start| + 2 * k];
    }
  }

  // ---------------------------------------------------------------- the loop

  /** The state of the loop. */
  class Session {
    var rounds: nat
    var forcedAnswer: bool
    var messages: seq<Message>
    var toolEvents: seq<Event>

    constructor (start: seq<Message>)
      ensures rounds == 0 && !forcedAnswer && messages == start && toolEvents == []
    {
      rounds, forcedAnswer, messages, toolEvents := 0, false, start, [];
    }

    /** Every completed round proposed a tool, and the final round has been announced once the
        budget is used up. */
    ghost predicate Valid(w: World, budget: nat, start: seq<Message>)
      reads this
    {
      && budget >= 1 && rounds <= budget
      && forcedAnswer == (rounds == budget)
      && History(w, budget, start, rounds) == Some((messages, toolEvents))
    }

    /** One turn: `None` when the loop goes on. */
    method Turn(w: World, budget: nat, ghost start: seq<Message>) returns (done: Option<Outcome>)
      requires Valid(w, budget, start)
      modifies this
      ensures done == None ==> Valid(w, budget, start) && rounds == old(rounds) + 1
      ensures done.Some? ==> IsOutcome(w, budget, start, done.value)
    {
      hide Exchange;
      var reply := w.reply(rounds + 1, messages);
      if reply.Unavailable? {
        return Some(Failed(InferenceDown, rounds, toolEvents, messages));
      }
      var answer := reply.answer;
      rounds := rounds + 1;
      var exhausted := rounds >= budget;
      var proposal := w.parse(answer);
      if proposal.Some? && forcedAnswer {
        return Some(Failed(ProtocolError, rounds, toolEvents, messages));
      }
      if proposal.Some? {
        var x := Exchange(w, rounds, answer, proposal.value, exhausted);
        toolEvents := toolEvents + [x.2];
        messages := messages + [x.0, x.1];
        if exhausted {
          forcedAnswer := true;
        }
        return None;
      }
      return Some(Answered(answer, rounds, toolEvents, messages));
    }
  }

  /** How a run may end. `rounds` counts completions; all but the last proposed a tool. */
  ghost predicate IsOutcome(w: World, budget: nat, start: seq<Message>, o: Outcome) {
    match o
    case Answered(text, rounds, events, messages) =>
      && 1 <= rounds <= budget + 1
      && History(w, budget, start, rounds - 1) == Some((messages, events))
      && w.reply(rounds, messages) == Text(text) && w.parse(text) == None
    case Failed(ProtocolError, rounds, events, messages) =>
      && rounds == budget + 1
      && History(w, budget, start, budget) == Some((messages, events))
      && w.reply(rounds, messages).Text? && w.parse(w.reply(rounds, messages).answer).Some?
    case Failed(InferenceDown, rounds, events, messages) =>
      && rounds <= budget
      && History(w, budget, start, rounds) == Some((messages, events))
      && w.reply(rounds + 1, messages) == Unavailable
  }

  /** The loop ends within budget + 1 completions, whatever the model does. */
  method Run(w: World, toolIterations: int, start: seq<Message>) returns (outcome: Outcome)
    ensures IsOutcome(w, if toolIterations > 1 then toolIterations else 1, start, outcome)
  {
    var budget: nat := if toolIterations > 1 then toolIterations else 1;
    var session := new Session(start);
    while true
      invariant session.Valid(w, budget, start)
      decreases budget + 1 - session.rounds
    {
      var done := session.Turn(w, budget, start);
      if done.Some? {
        return done.value;
      }
    }
  }

  // ---------------------------------------------------------------- what every run guarantees

  /** The outcome of a run is determined by the world: no two different ends satisfy the specification. */
  lemma OutcomeUnique(w: World, budget: nat, start: seq<Message>, o: Outcome, q: Outcome)
    requires budget >= 1 && IsOutcome(w, budget, start, o) && IsOutcome(w, budget, start, q)
    ensures o == q
  {
    OutcomeNotBefore(w, budget, start, o, q);
    OutcomeNotBefore(w, budget, start, q, o);
  }

  /** Completed tool rounds of an outcome. */
  function ToolRounds(o: Outcome): int {
    match o
    case Answered(_, rounds, _, _) => rounds - 1
    case Failed(ProtocolError, rounds, _, _) => rounds - 1
    case Failed(InferenceDown, rounds, _, _) => rounds
  }

  /** A run that stopped short of its budget met a reply that proposes no tool. */
  lemma OutcomeStops(w: World, budget: nat, start: seq<Message>, o: Outcome)
    requires IsOutcome(w, budget, start, o)
    ensures 0 <= ToolRounds(o) <= budget && History(w, budget, start, ToolRounds(o)).Some?
    ensures ToolRounds(o) < budget ==> History(w, budget, start, ToolRounds(o) + 1) == None
  {}

  lemma OutcomeNotBefore(w: World, budget: nat, start: seq<Message>, o: Outcome, q: Outcome)
    requires IsOutcome(w, budget, start, o) && IsOutcome(w, budget, start, q)
    ensures ToolRounds(q) <= ToolRounds(o)
  {
    hide IsOutcome, ToolRounds, History;
    OutcomeStops(w, budget, start, o);
    OutcomeStops(w, budget, start, q);
    if ToolRounds(q) > ToolRounds(o) {
      HistoryPrefix(w, budget, start, ToolRounds(o) + 1, ToolRounds(q));
    }
  }

  /** Whatever the model answers: bounded completions, bounded tool runs on enabled tools only, one
      event and two messages per tool round, and never a raw tool call as the answer. */
  lemma RunIsSafe(w: World, budget: nat, start: seq<Message>, o: Outcome)
    requires budget >= 1 && IsOutcome(w, budget, start, o)
    ensures o.rounds <= budget + 1 && ToolRounds(o) <= budget
    ensures |Runs(o.events)| <= budget && forall t | t in Runs(o.events) :: t in w.enabled
    ensures |o.events| == ToolRounds(o) && |o.messages| == |start| + 2 * ToolRounds(o) && start <= o.messages
    ensures o.Answered? ==> w.parse(o.text) == None && |o.events| == o.rounds - 1
    ensures o.Failed? && o.failure == ProtocolError ==> o.rounds == budget + 1
  {
    HistorySizes(w, budget, start, ToolRounds(o));
  }

  /** The final-round notice is appended at most once, and exactly when all `budget` rounds proposed tools. */
  lemma NudgedAtMostOnce(w: World, budget: nat, start: seq<Message>, o: Outcome)
    requires budget >= 1 && IsOutcome(w, budget, start, o)
    ensures NudgeCount(o.messages) == NudgeCount(start) + (if ToolRounds(o) == budget then 1 else 0)
  {
    HistoryNudges(w, budget, start, ToolRounds(o));
  }

  /** Every tool round of the transcript is the model's own reply followed by the tool's answer. */
  lemma TranscriptIsFaithful(w: World, budget: nat, start: seq<Message>, o: Outcome, k: nat)
    requires budget >= 1 && IsOutcome(w, budget, start, o) && k < ToolRounds(o)
    ensures RoundAt(w, budget, start, o.messages, o.events, k)
  {
    HistoryRounds(w, budget, start, ToolRounds(o), k);
  }

  // ---------------------------------------------------------------- fitting the history

  /** About four characters a token. */
  function EstimateTokens(text: string): nat {
    (|text| + 3) / 4
  }

  function TotalTokens(fixed: nat, messages: seq<Message>): nat {
    if messages == [] then fixed
    else EstimateTokens(messages[0].content) + TotalTokens(fixed, messages[1..])
  }

  /** Room for the prompt once the answer and a safety margin are reserved. */
  function PromptBudget(contextLength: int, maxTokens: int): int {
    var room := contextLength - maxTokens - 256;
    if room > 512 then room else 512
  }

  /** An estimate is the length over four, rounded up. */
  lemma EstimateRoundsUp(text: string)
    ensures |text| <= 4 * EstimateTokens(text) < |text| + 4
  {}

  /** The total is the fixed part plus one estimate per message, whatever their order. */
  lemma {:induction false} TotalSplits(fixed: nat, messages: seq<Message>, i: nat)
    requires i < |messages|
    ensures TotalTokens(fixed, []) == fixed
    ensures TotalTokens(fixed, messages) ==
            EstimateTokens(messages[i].content) + TotalTokens(fixed, messages[..i] + messages[i + 1..])
  {
    var less := messages[..i] + messages[i + 1..];
    if i == 0 {
      assert less == messages[1..];
    } else {
      TotalSplits(fixed, messages[1..], i - 1);
      assert less[0] == messages[0];
      assert less[1..] == messages[1..][..i - 1] + messages[1..][i..];
    }
  }

  lemma {:induction false} LongerCostsMore(fixed: nat, messages: seq<Message>, i: nat, j: nat)
    requires i <= j <= |messages|
    ensures TotalTokens(fixed, messages[j..]) <= TotalTokens(fixed, messages[i..])
    decreases j - i
  {
    if i < j {
      LongerCostsMore(fixed, messages, i + 1, j);
      assert messages[i..][1..] == messages[i + 1..];
    }
  }

  /** The result is the longest suffix of the history that fits: it fits unless it is empty, and any
      longer suffix does not. */
  method ClampHistory(fixedText: string, history: seq<Message>, contextLength: int, maxTokens: int)
    returns (trimmed: seq<Message>)
    ensures exists k: nat :: k <= |history| && trimmed == history[k..]
    ensures var room := contextLength - maxTokens - 256;
            var budget := if room < 512 then 512 else room;
            && (trimmed == [] || TotalTokens(EstimateTokens(fixedText), trimmed) <= budget)
            && forall i: nat | i + |trimmed| < |history| ::
                 TotalTokens(EstimateTokens(fixedText), history[i..]) > budget
  {
    var fixed, budget := EstimateTokens(fixedText), PromptBudget(contextLength, maxTokens);
    trimmed := history;
    ghost var k := 0;
    while trimmed != [] && TotalTokens(fixed, trimmed) > budget
      invariant 0 <= k <= |history| && trimmed == history[k..]
      invariant forall i: nat | i < k :: TotalTokens(fixed, history[i..]) > budget
    {
      forall i: nat | i <= k ensures TotalTokens(fixed, history[i..]) > budget {
        LongerCostsMore(fixed, history, i, k);
      }
      trimmed := trimmed[1..];
      k := k + 1;
    }
  }
}
