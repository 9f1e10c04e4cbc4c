/**
 * What the engine shows the oracle and how it reads the answer: the system
 * prompt listing the known participants, the backlog rendered as one user
 * turn per message, and the normalisation of the oracle's reply.
 */
module Prompt {
  import opened Wrappers
  import opened Strings
  import opened Registry
  import opened Backlog

  const SYS_PROMPT: string :=
    "# Dialogue Orchestration\n" +
    "## Goal\n" +
    "Given a dialogue between a variable number of people, " +
    "return the name of the person the last message " +
    "is destined to, or the name of person who *should* " +
    "respond to the last message.\n" +
    "The provided name should never be the same as the person who sent the " +
    "last message.\n" +
    "If the message is not really destined to anyone, try to pick the name of someone who " +
    "hasn't spoken yet from the list of known participants.\n" +
    "If the last message mentions someone in their response, they should be prioritized as " +
    "the person who should be receiving it.\n" +
    "## Response\n" +
    "Your response should only contain the name of the chosen person and " +
    "nothing else. No other commentary needed.\n"

  const PARTICIPANTS_HEADER: string := "## Known Participants\n"

  const LIST_SEPARATOR: string := ", "

  /** One message of the oracle request. */
  datatype ChatTurn = System(content: string) | User(name: string, content: string)

  /** How a participant is listed: its name when the name is truthy (set and
      not empty), its id otherwise. */
  function Label(p: Participant): string
  {
    if p.name.Some? && p.name.value != "" then p.name.value else p.user
  }

  /** The labels of the registry, in registry order. */
  function Labels(reg: seq<Participant>): seq<string>
  {
    seq(|reg|, i requires 0 <= i < |reg| => Label(reg[i]))
  }

  /** The system prompt around the instruction text `instructions`: the
      instructions, the participants header, and the labels joined by `", "`. */
  function PromptWith(instructions: string, reg: seq<Participant>): string
  {
    instructions + PARTICIPANTS_HEADER + Join(Labels(reg), LIST_SEPARATOR)
  }

  /** `getSystemPrompt()`. */
  function SystemPrompt(reg: seq<Participant>): string
  {
    PromptWith(SYS_PROMPT, reg)
  }

  /** `a` is the first `|a|` elements of `a + b`. */
  lemma PrefixOf<T>(a: seq<T>, b: seq<T>)
    ensures (a + b)[..|a|] == a
  {
  }

  /** `b` sits at offset `|a|` of `a + b + c`. */
  lemma InfixAt<T>(a: seq<T>, b: seq<T>, c: seq<T>)
    ensures (a + b + c)[|a|..|a| + |b|] == b
  {
    assert forall k :: 0 <= k < |b| ==> (a + b + c)[|a|..|a| + |b|][k] == b[k];
  }

  /** `b` and `c` sit one after the other at offset `|a|` of `a + b + c + d`. */
  lemma Pieces<T>(a: seq<T>, b: seq<T>, c: seq<T>, d: seq<T>)
    ensures (a + b + c + d)[|a|..|a| + |b|] == b
    ensures (a + b + c + d)[|a| + |b|..|a| + |b| + |c|] == c
  {
    assert a + b + c + d == a + b + (c + d);
    InfixAt(a, b, c + d);
    InfixAt(a + b, c, d);
  }

  /** Where part `i` starts in `Join(parts, sep)`. */
  function JoinOffset(parts: seq<string>, sep: string, i: nat): nat
    requires i <= |parts|
  {
    if i == 0 then 0 else |parts[0]| + |sep| + JoinOffset(parts[1..], sep, i - 1)
  }

  /** Part `i` of a join, behind a prefix `pre`, sits at its offset, and the
      separator follows it when another part comes after. */
  lemma {:induction false} JoinPartAt(pre: string, parts: seq<string>, sep: string, i: nat)
    requires i < |parts|
    ensures var o := |pre| + JoinOffset(parts, sep, i);
            var s := pre + Join(parts, sep);
            o + |parts[i]| <= |s| && s[o..o + |parts[i]|] == parts[i]
    ensures var o := |pre| + JoinOffset(parts, sep, i) + |parts[i]|;
            var s := pre + Join(parts, sep);
            i + 1 < |parts| ==>
              o + |sep| <= |s| && s[o..o + |sep|] == sep
              && |pre| + JoinOffset(parts, sep, i + 1) == o + |sep|
    ensures var o := |pre| + JoinOffset(parts, sep, i) + |parts[i]|;
            i + 1 == |parts| ==> o == |pre + Join(parts, sep)|
    decreases i
  {
    if i == 0 {
      JoinFirstAt(pre, parts, sep);
    } else {
      var pre' := pre + parts[0] + sep;
      JoinTail(pre, parts, sep);
      assert parts[1..][i - 1] == parts[i];
      assert JoinOffset(parts, sep, i) == |parts[0]| + |sep| + JoinOffset(parts[1..], sep, i - 1);
      JoinPartAt(pre', parts[1..], sep, i - 1);
      if i + 1 < |parts| {
        assert JoinOffset(parts, sep, i + 1) == |parts[0]| + |sep| + JoinOffset(parts[1..], sep, i);
      }
    }
  }

  /** Behind `pre`, a join starts with its first part, followed by the
      separator when more parts come, and ends with it otherwise. */
  lemma JoinFirstAt(pre: string, parts: seq<string>, sep: string)
    requires parts != []
    ensures var s := pre + Join(parts, sep);
            |pre| + |parts[0]| <= |s| && s[|pre|..|pre| + |parts[0]|] == parts[0]
    ensures var o := |pre| + |parts[0]|;
            var s := pre + Join(parts, sep);
            1 < |parts| ==> o + |sep| <= |s| && s[o..o + |sep|] == sep
    ensures |parts| == 1 ==> |pre| + |parts[0]| == |pre + Join(parts, sep)|
  {
    if |parts| == 1 {
      assert pre + Join(parts, sep) == pre + parts[0] + [];
      InfixAt(pre, parts[0], []);
    } else {
      JoinTail(pre, parts, sep);
      Pieces(pre, parts[0], sep, Join(parts[1..], sep));
    }
  }

  /** Behind `pre`, a join of several parts is its first part and the
      separator, then the join of the remaining parts. */
  lemma JoinTail(pre: string, parts: seq<string>, sep: string)
    requires |parts| > 1
    ensures pre + Join(parts, sep) == (pre + parts[0] + sep) + Join(parts[1..], sep)
  {
  }

  /** The system prompt is the instructions (`SYS_PROMPT` in `SystemPrompt`),
      the participants header, and then every participant's label, in
      registry order, each followed by `", "` except the last, with which the
      prompt ends. */
  lemma PromptListsParticipants(instructions: string, reg: seq<Participant>, i: nat)
    requires i < |reg|
    ensures var pre := instructions + PARTICIPANTS_HEADER;
            var s := PromptWith(instructions, reg);
            var o := |pre| + JoinOffset(Labels(reg), LIST_SEPARATOR, i);
            var l := Label(reg[i]);
            s[..|pre|] == pre && o + |l| <= |s| && s[o..o + |l|] == l
    ensures var pre := instructions + PARTICIPANTS_HEADER;
            var s := PromptWith(instructions, reg);
            var o := |pre| + JoinOffset(Labels(reg), LIST_SEPARATOR, i) + |Label(reg[i])|;
            i + 1 < |reg| ==>
              o + 2 <= |s| && s[o..o + 2] == LIST_SEPARATOR
              && |pre| + JoinOffset(Labels(reg), LIST_SEPARATOR, i + 1) == o + 2
    ensures var pre := instructions + PARTICIPANTS_HEADER;
            var o := |pre| + JoinOffset(Labels(reg), LIST_SEPARATOR, i) + |Label(reg[i])|;
            i + 1 == |reg| ==> o == |PromptWith(instructions, reg)|
  {
    var pre := instructions + PARTICIPANTS_HEADER;
    PrefixOf(pre, Join(Labels(reg), LIST_SEPARATOR));
    JoinPartAt(pre, Labels(reg), LIST_SEPARATOR, i);
  }

  /** With nobody known, the system prompt ends right after the header. */
  lemma EmptyRoomPrompt(instructions: string)
    ensures PromptWith(instructions, []) == instructions + PARTICIPANTS_HEADER
  {
    assert Labels([]) == [];
  }

  /** The user turn for one backlog message: attributed to the payload name,
      reading "name: " and the trimmed text. */
  function Turn(m: Message): ChatTurn
  {
    User(m.name, m.name + ": " + Trim(m.content))
  }

  /** `getBacklogAsMessages()`: one user turn per backlog message, in order. */
  function BacklogAsMessages(b: seq<Message>): seq<ChatTurn>
  {
    seq(|b|, i requires 0 <= i < |b| => Turn(b[i]))
  }

  /** One more backlog message pushes one more turn at the end. */
  lemma BacklogAsMessagesSnoc(b: seq<Message>, m: Message)
    ensures BacklogAsMessages(b + [m]) == BacklogAsMessages(b) + [Turn(m)]
  {
    assert forall i :: 0 <= i < |b| ==> (b + [m])[i] == b[i];
  }

  /** The oracle request: the system prompt first, then the backlog. */
  function Request(reg: seq<Participant>, b: seq<Message>): seq<ChatTurn>
  {
    [System(SystemPrompt(reg))] + BacklogAsMessages(b)
  }

  /** The request built right after appending `m`: the system prompt, then
      the newest `MAX_BACKLOG_AMOUNT` earlier messages in order, and the
      incoming message as the last turn, the one the instructions ask about. */
  lemma RequestEndsWithIncoming(reg: seq<Participant>, b: seq<Message>, m: Message)
    ensures var r := Request(reg, Appended(b, m));
            |r| == |Last(b, MAX_BACKLOG_AMOUNT)| + 2
            && r[0] == System(SystemPrompt(reg))
            && r[1..|r| - 1] == BacklogAsMessages(Last(b, MAX_BACKLOG_AMOUNT))
            && r[|r| - 1] == Turn(m)
  {
    var kept := Last(b, MAX_BACKLOG_AMOUNT);
    assert Appended(b, m) == kept + [m];
    BacklogAsMessagesSnoc(kept, m);
    var r := Request(reg, Appended(b, m));
    assert r == [System(SystemPrompt(reg))] + BacklogAsMessages(kept) + [Turn(m)];
  }

  /** The oracle's reply: a failed call, or a completion whose content may be
      null. */
  datatype OracleReply = Failed | Completed(content: Option<string>)

  /** The text `decideTarget` returns: the completion content, with a failed
      call and a null content both read as the empty text. */
  function ReplyText(reply: OracleReply): string
  {
    match reply
    case Failed => ""
    case Completed(None) => ""
    case Completed(Some(text)) => text
  }

  /** A failed or empty reply names nobody, so the random fallback decides,
      unless some participant has an empty id or an empty name. */
  lemma EmptyReplyMatchesOnlyEmpty(reg: seq<Participant>, reply: OracleReply)
    requires reply.Failed? || reply.content.None?
    ensures MatchIndex(reg, ReplyText(reply)) < |reg|
            <==> exists i :: 0 <= i < |reg| && (reg[i].user == "" || reg[i].name == Some(""))
  {
    var i := MatchIndex(reg, ReplyText(reply));
    if i == |reg| {
      assert forall j :: 0 <= j < |reg| ==> reg[j].user != "" && reg[j].name != Some("");
    }
  }
}
