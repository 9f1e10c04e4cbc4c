/**
 * Concrete rooms that show how the engine routes: a direct answer from the
 * oracle, a failed oracle call, a participant alone in the room, dispatch in
 * a room of three, and the backlog after a long conversation.
 */
module Scenarios {
  import opened Wrappers
  import opened Registry
  import opened Backlog
  import opened Dispatch

  const ALICE := Participant("A", Some("Alice"))
  const BOB := Participant("B", Some("Bob"))
  const CAROL := Participant("C", Some("Carol"))

  /** Alice asks Bob; the oracle answers "Bob": B is the target, whatever
      the draws. */
  lemma OracleNamesBob(draws: seq<nat>)
    requires |draws| > MAX_RETRIES && ValidDraws([ALICE, BOB], draws)
    ensures Resolve([ALICE, BOB], "A", "Bob", draws) == "B"
  {
    assert [ALICE, BOB][1..] == [BOB];
    assert MatchIndex([BOB], "Bob") == 0;
    assert MatchIndex([ALICE, BOB], "Bob") == 1;
  }

  /** The oracle call fails: the target is B as soon as one of the first
      five draws picks B, and A, the sender, when all five pick A, even if
      the sixth draw picks B. */
  lemma FailedOracleFallsBack(draws: seq<nat>)
    requires |draws| > MAX_RETRIES && ValidDraws([ALICE, BOB], draws)
    ensures Resolve([ALICE, BOB], "A", "", draws)
            == if exists k :: 0 <= k < MAX_RETRIES && draws[k] == 1 then "B" else "A"
  {
    var reg := [ALICE, BOB];
    assert !Matches(ALICE, "") && !Matches(BOB, "");
    assert MatchIndex(reg, "") == 2;
    ResolveUnmatched(reg, "A", "", draws);
    assert forall k :: 0 <= k < |draws| ==> (reg[draws[k]].user == "A" <==> draws[k] == 0);
  }

  /** Alone in the room, A names itself and is its own target; it receives
      the visible send and nothing else. */
  lemma AloneInTheRoom(draws: seq<nat>, content: string)
    requires |draws| > MAX_RETRIES && ValidDraws([ALICE], draws)
    ensures Resolve([ALICE], "A", "A", draws) == "A"
    ensures Plan([ALICE], "Alice", content, "A") == [Send(Text, "Alice", content, ["A"])]
  {
    assert Others([ALICE], "A") == [];
  }

  /** In a room of A, B and C, a message from A routed to B is shown to B
      and copied as data to A and C, in registry order. */
  lemma RoomOfThree(content: string)
    ensures Plan([ALICE, BOB, CAROL], "Alice", content, "B")
            == [Send(Text, "Alice", content, ["B"]),
                Send(Data, "Alice", content, ["A"]),
                Send(Data, "Alice", content, ["C"])]
  {
    var reg := [ALICE, BOB, CAROL];
    assert [ALICE][..0] == [];
    assert Others([ALICE], "B") == ["A"];
    assert [ALICE, BOB][..1] == [ALICE];
    assert Others([ALICE, BOB], "B") == ["A"];
    assert reg[..2] == [ALICE, BOB];
    assert Others(reg, "B") == ["A", "C"];
  }

  /** Twelve appends to an empty backlog keep the last eleven. */
  lemma TwelveMessages(ms: seq<Message>)
    requires |ms| == 12
    ensures AppendAll([], ms) == ms[1..]
    ensures |AppendAll([], ms)| == MAX_BACKLOG_AMOUNT + 1
  {
    AppendAllWindow([], ms);
    assert [] + ms == ms;
  }
}
