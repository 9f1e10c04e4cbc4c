/**
 * The dialogue-routing engine: the registry of known participants and the
 * dialogue backlog as state updated in place, and the steps of handling one
 * incoming text. The oracle's reply, the random draws and the engine's own
 * account id are supplied by the caller; sends are returned as records.
 */
module Engine {
  import opened Wrappers
  import opened Registry
  import opened Backlog
  import opened Prompt
  import opened Dispatch

  class Maestro {
    /** `known_participants`, in insertion order. */
    var registry: seq<Participant>
    /** `dialogue_backlog`, oldest first. */
    var backlog: seq<Message>

    /** No id is registered twice, and the backlog never exceeds
        `MAX_BACKLOG_AMOUNT + 1` messages. */
    ghost predicate Valid()
      reads this
    {
      UniqueUsers(registry) && |backlog| <= MAX_BACKLOG_AMOUNT + 1
    }

    constructor ()
      ensures Valid()
      ensures registry == [] && backlog == []
    {
      registry := [];
      backlog := [];
    }

    /** One presence poll (`recursiveFetchParticipants`): every fetched id
        that is neither the engine's own account nor known yet is appended
        without a name. */
    method ObservePresence(selfUser: string, fetched: seq<string>)
      requires Valid()
      modifies this
      ensures Valid()
      ensures registry == MergePresence(old(registry), selfUser, fetched)
      ensures backlog == old(backlog)
    {
      for i := 0 to |fetched|
        invariant registry == MergePresence(old(registry), selfUser, fetched[..i])
        invariant backlog == old(backlog)
      {
        assert fetched[..i + 1][..i] == fetched[..i];
        var user := fetched[i];
        if user != selfUser {
          var isKnown := false;
          for j := 0 to |registry|
            invariant isKnown <==> exists k :: 0 <= k < j && registry[k].user == user
          {
            if registry[j].user == user {
              isKnown := true;
            }
          }
          if !isKnown {
            registry := registry + [Participant(user, None)];
          }
        }
      }
      assert fetched[..|fetched|] == fetched;
      MergePresenceUnique(old(registry), selfUser, fetched);
    }

    /** The speaker of an incoming text: its entry is renamed, or a named
        entry is appended when its id is new. */
    method ObserveSpeaker(from: string, sender: string)
      requires Valid()
      modifies this
      ensures Valid()
      ensures registry == Registry.ObserveSpeaker(old(registry), from, sender)
      ensures backlog == old(backlog)
    {
      var isKnown := false;
      var j := 0;
      while j < |registry|
        invariant 0 <= j <= |registry|
        invariant registry == old(registry)
        invariant forall k :: 0 <= k < j ==> registry[k].user != from
      {
        if registry[j].user == from {
          isKnown := true;
          break;
        }
        j := j + 1;
      }
      if isKnown {
        registry := registry[j := Participant(registry[j].user, Some(sender))];
      } else {
        registry := registry + [Participant(from, Some(sender))];
      }
    }

    /** `appendToBacklog`: drop the oldest messages while more than
        `MAX_BACKLOG_AMOUNT` are held, then push `m`. */
    method AppendToBacklog(m: Message)
      requires Valid()
      modifies this
      ensures Valid()
      ensures backlog == Appended(old(backlog), m)
      ensures registry == old(registry)
    {
      while |backlog| > MAX_BACKLOG_AMOUNT
        invariant backlog == old(backlog)[|old(backlog)| - |backlog|..]
        invariant |backlog| >= MAX_BACKLOG_AMOUNT || backlog == old(backlog)
        invariant registry == old(registry)
        decreases |backlog|
      {
        backlog := backlog[1..];
      }
      backlog := backlog + [m];
    }

    /** `decideTarget`: record `m` in the backlog, build the oracle request
        from the registry and the backlog, and read the oracle's reply. */
    method DecideTarget(m: Message, reply: OracleReply) returns (request: seq<ChatTurn>, target: string)
      requires Valid()
      modifies this
      ensures Valid()
      ensures backlog == Appended(old(backlog), m) && registry == old(registry)
      ensures request == Request(registry, backlog)
      ensures target == ReplyText(reply)
    {
      AppendToBacklog(m);
      request := [System(SystemPrompt(registry))] + BacklogAsMessages(backlog);
      target := ReplyText(reply);
    }

    /** The search for the oracle's text in the registry: the id of the first
        entry, in registry order, whose id or name equals the text. */
    method LookupTarget(target: string) returns (found: Option<string>)
      ensures found == Lookup(registry, target)
      ensures found.Some? ==> Known(registry, found.value)
      ensures found.None? ==> forall k :: 0 <= k < |registry| ==>
                                registry[k].user != target && registry[k].name != Some(target)
    {
      found := None;
      var i := 0;
      while i < |registry|
        invariant 0 <= i <= |registry|
        invariant forall k :: 0 <= k < i ==> !Matches(registry[k], target)
      {
        var participant := registry[i];
        if participant.user == target {
          found := Some(participant.user);
          break;
        }
        if participant.name == Some(target) {
          found := Some(participant.user);
          break;
        }
        i := i + 1;
      }
    }

    /** The random fallback: one draw, then up to `MAX_RETRIES` more while the
        draw is the sender; when the retry count reaches `MAX_RETRIES` the
        target is the sender, whatever the last draw was. Returns the target
        and how many draws were made. */
    method PickFallback(from: string, draws: seq<nat>) returns (target: string, drawn: nat)
      requires |draws| > MAX_RETRIES && ValidDraws(registry, draws)
      ensures 1 <= drawn <= MAX_RETRIES + 1
      ensures forall k :: 0 <= k < drawn - 1 ==> registry[draws[k]].user == from
      ensures drawn <= MAX_RETRIES ==> target == registry[draws[drawn - 1]].user && target != from
      ensures drawn == MAX_RETRIES + 1 ==> target == from
      ensures target == Fallback(registry, from, draws)
    {
      target := registry[draws[0]].user;
      var tries := 0;
      while target == from && tries < MAX_RETRIES
        invariant 0 <= tries <= MAX_RETRIES
        invariant target == registry[draws[tries]].user
        invariant forall k :: 0 <= k < tries ==> registry[draws[k]].user == from
      {
        tries := tries + 1;
        target := registry[draws[tries]].user;
      }
      drawn := tries + 1;
      var first := draws[..MAX_RETRIES];
      if tries >= MAX_RETRIES {
        target := from;
        assert forall k :: 0 <= k < |first| ==> registry[first[k]].user == from;
      } else {
        FirstOtherAt(registry, from, first, tries);
      }
    }

    /** The sends for one message: a visible text to the target, then a data
        send to every other registry entry in order; none when the target id
        is empty. */
    method Dispatch(sender: string, content: string, target: string) returns (sends: seq<Send>)
      ensures sends == Plan(registry, sender, content, target)
    {
      if target == "" {
        return [];
      }
      sends := [Send(Text, sender, content, [target])];
      var notified := [];
      for i := 0 to |registry|
        invariant notified == Others(registry[..i], target)
        invariant sends == [Send(Text, sender, content, [target])] + Notices(sender, content, notified)
      {
        assert registry[..i + 1][..i] == registry[..i];
        var user := registry[i].user;
        if user != target {
          NoticesSnoc(sender, content, notified, user);
          notified := notified + [user];
          sends := sends + [Send(Data, sender, content, [user])];
        }
      }
      assert registry[..|registry|] == registry;
    }

    /** `handleIncomingText`: learn the speaker, record the message and build
        the oracle request, resolve the oracle's text against the registry
        (falling back to random draws), and dispatch. */
    method HandleIncomingText(sender: string, content: string, m: Message, reply: OracleReply, draws: seq<nat>)
      returns (request: seq<ChatTurn>, sends: seq<Send>)
      requires Valid()
      requires |draws| > MAX_RETRIES
      requires ValidDraws(Registry.ObserveSpeaker(registry, m.from, sender), draws)
      modifies this
      ensures Valid()
      ensures registry == Registry.ObserveSpeaker(old(registry), m.from, sender)
      ensures backlog == Appended(old(backlog), m)
      ensures request == Request(registry, backlog)
      ensures sends == Plan(registry, sender, content, Resolve(registry, m.from, ReplyText(reply), draws))
    {
      ObserveSpeaker(m.from, sender);
      var target;
      request, target := DecideTarget(m, reply);
      var found := LookupTarget(target);
      var targetUser;
      if found.Some? {
        targetUser := found.value;
      } else {
        var drawn;
        targetUser, drawn := PickFallback(m.from, draws);
      }
      sends := Dispatch(sender, content, targetUser);
    }
  }
}
