/**
 * The participant registry (`known_participants`): an insertion-ordered list
 * of ids with optional display names, how presence polling and observed
 * speakers change it, and how a free-text target is resolved against it.
 */
module Registry {
  import opened Wrappers
  import Strings

  datatype Participant = Participant(user: string, name: Option<string>)

  /** Some entry of `reg` has the id `u`. */
  predicate Known(reg: seq<Participant>, u: string) {
    exists i :: 0 <= i < |reg| && reg[i].user == u
  }

  /** No two entries share an id. */
  predicate UniqueUsers(reg: seq<Participant>) {
    forall i, j :: 0 <= i < j < |reg| ==> reg[i].user != reg[j].user
  }

  // ---------------------------------------------------------------------------
  // Presence polling

  /** One fetched id: skipped when it is the engine's own account or already
      known, otherwise appended without a name. */
  function MergeId(reg: seq<Participant>, selfUser: string, u: string): seq<Participant>
  {
    if u == selfUser || Known(reg, u) then reg else reg + [Participant(u, None)]
  }

  /** The registry after the fetched ids have been merged in fetch order. */
  function MergePresence(reg: seq<Participant>, selfUser: string, fetched: seq<string>): seq<Participant>
    decreases |fetched|
  {
    if fetched == [] then reg
    else MergeId(MergePresence(reg, selfUser, fetched[..|fetched| - 1]), selfUser, fetched[|fetched| - 1])
  }

  /** Merging only appends: the old entries, names included, are a prefix,
      and every appended entry is unnamed. */
  lemma {:induction false} MergePresenceExtends(reg: seq<Participant>, selfUser: string, fetched: seq<string>)
    ensures var r := MergePresence(reg, selfUser, fetched);
            |reg| <= |r| && r[..|reg|] == reg
            && forall i :: |reg| <= i < |r| ==> r[i].name == None
    decreases |fetched|
  {
    if fetched != [] {
      MergePresenceExtends(reg, selfUser, fetched[..|fetched| - 1]);
    }
  }

  /** An id is known after merging exactly when it was known before, or was
      fetched and is not the engine's own account. */
  lemma {:induction false} MergePresenceKnown(reg: seq<Participant>, selfUser: string, fetched: seq<string>, u: string)
    ensures Known(MergePresence(reg, selfUser, fetched), u)
            <==> Known(reg, u) || (u in fetched && u != selfUser)
    decreases |fetched|
  {
    if fetched != [] {
      var init := fetched[..|fetched| - 1];
      var last := fetched[|fetched| - 1];
      MergePresenceKnown(reg, selfUser, init, u);
      var before := MergePresence(reg, selfUser, init);
      var after := MergeId(before, selfUser, last);
      assert fetched == init + [last];
      assert u in fetched <==> u in init || u == last;
      if after != before {
        assert after == before + [Participant(last, None)];
        assert after[|before|].user == last;
        if Known(before, u) {
          var i :| 0 <= i < |before| && before[i].user == u;
          assert after[i].user == u;
        }
        if Known(after, u) && u != last {
          var i :| 0 <= i < |after| && after[i].user == u;
          assert before[i].user == u;
        }
      }
    }
  }

  /** Merging never introduces a second entry for an id. */
  lemma {:induction false} MergePresenceUnique(reg: seq<Participant>, selfUser: string, fetched: seq<string>)
    requires UniqueUsers(reg)
    ensures UniqueUsers(MergePresence(reg, selfUser, fetched))
    decreases |fetched|
  {
    if fetched != [] {
      MergePresenceUnique(reg, selfUser, fetched[..|fetched| - 1]);
    }
  }

  /** The appended entries come in the order in which their ids were first
      fetched. */
  lemma {:induction false} MergePresenceOrder(reg: seq<Participant>, selfUser: string, fetched: seq<string>)
    ensures var r := MergePresence(reg, selfUser, fetched);
            forall p, q :: |reg| <= p < q < |r|
              ==> r[p].user in fetched && r[q].user in fetched
                  && Strings.IndexOf(fetched, r[p].user) < Strings.IndexOf(fetched, r[q].user)
    decreases |fetched|
  {
    if fetched != [] {
      var init := fetched[..|fetched| - 1];
      var last := fetched[|fetched| - 1];
      MergePresenceOrder(reg, selfUser, init);
      MergePresenceExtends(reg, selfUser, init);
      var before := MergePresence(reg, selfUser, init);
      var r := MergeId(before, selfUser, last);
      forall p | |reg| <= p < |before|
        ensures before[p].user in init
        ensures Strings.IndexOf(fetched, before[p].user) == Strings.IndexOf(init, before[p].user)
      {
        MergePresenceKnown(reg, selfUser, init, before[p].user);
        MergePresenceKnown(reg, selfUser, [], before[p].user);
        AddedNotKnownBefore(reg, selfUser, init, p);
        IndexOfPrefix(init, last, before[p].user);
      }
      if r != before {
        MergePresenceKnown(reg, selfUser, init, last);
        assert last !in init;
        assert Strings.IndexOf(fetched, last) == |init| by { IndexOfPrefix(init, last, last); }
      }
    }
  }

  /** An entry that merging appended was not known beforehand. */
  lemma AddedNotKnownBefore(reg: seq<Participant>, selfUser: string, fetched: seq<string>, p: nat)
    requires |reg| <= p < |MergePresence(reg, selfUser, fetched)|
    ensures !Known(reg, MergePresence(reg, selfUser, fetched)[p].user)
    ensures MergePresence(reg, selfUser, fetched)[p].user != selfUser
    decreases |fetched|
  {
    var init := fetched[..|fetched| - 1];
    var before := MergePresence(reg, selfUser, init);
    MergePresenceExtends(reg, selfUser, init);
    if p < |before| {
      AddedNotKnownBefore(reg, selfUser, init, p);
    }
  }

  lemma IndexOfPrefix(init: seq<string>, last: string, x: string)
    requires x in init || x == last
    ensures Strings.IndexOf(init + [last], x)
            == if x in init then Strings.IndexOf(init, x) else |init|
  {
    var s := init + [last];
    var i := Strings.IndexOf(s, x);
    if x in init {
      var j := Strings.IndexOf(init, x);
      assert s[j] == x;
      assert forall k :: 0 <= k < j ==> s[k] == init[k];
    } else {
      assert forall k :: 0 <= k < |init| ==> s[k] == init[k];
      assert s[|init|] == x;
    }
  }

  // ---------------------------------------------------------------------------
  // Observed speakers

  /** Index of the first entry with id `u`, or `|reg|` when there is none. */
  function FindUser(reg: seq<Participant>, u: string): (i: nat)
    ensures i <= |reg|
    ensures i < |reg| ==> reg[i].user == u
    ensures forall j :: 0 <= j < i ==> reg[j].user != u
    ensures i == |reg| <==> !Known(reg, u)
  {
    if reg == [] then 0
    else if reg[0].user == u then 0
    else
      var i := 1 + FindUser(reg[1..], u);
      assert forall j :: 1 <= j < |reg| ==> reg[j] == reg[1..][j - 1];
      i
  }

  /** A message from `from`, signed `sender`: the entry for `from` is renamed
      in place, or a named entry is appended when `from` is new. */
  function ObserveSpeaker(reg: seq<Participant>, from: string, sender: string): (r: seq<Participant>)
    ensures Known(reg, from) ==> |r| == |reg|
    ensures Known(reg, from) ==> forall j :: 0 <= j < |reg| ==>
              r[j] == if j == FindUser(reg, from) then Participant(from, Some(sender)) else reg[j]
    ensures !Known(reg, from) ==> r == reg + [Participant(from, Some(sender))]
    ensures Known(r, from)
    ensures UniqueUsers(reg) ==> UniqueUsers(r)
  {
    var i := FindUser(reg, from);
    if i < |reg| then reg[i := Participant(from, Some(sender))]
    else
      var r := reg + [Participant(from, Some(sender))];
      assert r[|reg|].user == from;
      r
  }

  /** In a registry without repeated ids, only the speaker's own entry
      changes, and it changes only its name. */
  lemma ObserveSpeakerRenamesOnly(reg: seq<Participant>, from: string, sender: string, j: nat)
    requires UniqueUsers(reg) && j < |reg|
    ensures var r := ObserveSpeaker(reg, from, sender);
            r[j] == if reg[j].user == from then Participant(from, Some(sender)) else reg[j]
  {
  }

  /** Observing the same speaker twice is observing it once. */
  lemma ObserveSpeakerIdempotent(reg: seq<Participant>, from: string, sender: string)
    ensures var r := ObserveSpeaker(reg, from, sender);
            ObserveSpeaker(r, from, sender) == r
  {
    var r := ObserveSpeaker(reg, from, sender);
    var i := FindUser(reg, from);
    if i == |reg| {
      assert FindUser(r, from) == |reg|;
    } else {
      assert FindUser(r, from) == i;
    }
  }

  // ---------------------------------------------------------------------------
  // Target resolution

  /** The oracle's text names an entry: its id, or its (non-null) name. */
  predicate Matches(p: Participant, target: string) {
    p.user == target || p.name == Some(target)
  }

  /** Index of the first entry, in registry order, that the text names, or
      `|reg|` when none does. Each entry is tried by id and by name before
      the next one is looked at. */
  function MatchIndex(reg: seq<Participant>, target: string): (i: nat)
    ensures i <= |reg|
    ensures i < |reg| ==> reg[i].user == target || reg[i].name == Some(target)
    ensures forall j :: 0 <= j < i ==> reg[j].user != target && reg[j].name != Some(target)
  {
    if reg == [] then 0
    else if Matches(reg[0], target) then 0
    else
      var i := 1 + MatchIndex(reg[1..], target);
      assert forall j :: 1 <= j < |reg| ==> reg[j] == reg[1..][j - 1];
      i
  }

  /** The id the oracle's text resolves to, if any entry matches. */
  function Lookup(reg: seq<Participant>, target: string): Option<string>
  {
    var i := MatchIndex(reg, target);
    if i < |reg| then Some(reg[i].user) else None
  }

  /** The number of random retries allowed after the first draw. */
  const MAX_RETRIES: nat := 5

  /** The draws are indices into the registry. */
  predicate ValidDraws(reg: seq<Participant>, draws: seq<nat>) {
    forall k :: 0 <= k < |draws| ==> draws[k] < |reg|
  }

  /** The id of the first drawn entry that is not `from`, or `from` when every
      draw is `from`. */
  function FirstOther(reg: seq<Participant>, from: string, draws: seq<nat>): (u: string)
    requires ValidDraws(reg, draws)
    ensures u == from || exists k :: 0 <= k < |draws| && reg[draws[k]].user == u
    ensures u == from <==> forall k :: 0 <= k < |draws| ==> reg[draws[k]].user == from
  {
    if draws == [] then from
    else if reg[draws[0]].user != from then reg[draws[0]].user
    else
      var u := FirstOther(reg, from, draws[1..]);
      assert forall k :: 1 <= k < |draws| ==> draws[k] == draws[1..][k - 1];
      u
  }

  /** The random fallback: the first of the first `MAX_RETRIES` draws that
      names someone other than `from`, else `from` itself. The draw after
      those is made but can never change the outcome. */
  function Fallback(reg: seq<Participant>, from: string, draws: seq<nat>): string
    requires |draws| > MAX_RETRIES && ValidDraws(reg, draws)
  {
    FirstOther(reg, from, draws[..MAX_RETRIES])
  }

  /** The target of a message from `from` for the oracle's text `target`. */
  function Resolve(reg: seq<Participant>, from: string, target: string, draws: seq<nat>): string
    requires |draws| > MAX_RETRIES && ValidDraws(reg, draws)
  {
    match Lookup(reg, target)
    case Some(u) => u
    case None => Fallback(reg, from, draws)
  }

  /** `FirstOther` when draw `k` is the first that is not `from`. */
  lemma {:induction false} FirstOtherAt(reg: seq<Participant>, from: string, draws: seq<nat>, k: nat)
    requires ValidDraws(reg, draws) && k < |draws|
    requires forall j :: 0 <= j < k ==> reg[draws[j]].user == from
    requires reg[draws[k]].user != from
    ensures FirstOther(reg, from, draws) == reg[draws[k]].user
  {
    if k > 0 {
      FirstOtherAt(reg, from, draws[1..], k - 1);
    }
  }

  /** Resolution always yields an id of the registry once the sender is in it. */
  lemma ResolveIsKnown(reg: seq<Participant>, from: string, target: string, draws: seq<nat>)
    requires |draws| > MAX_RETRIES && ValidDraws(reg, draws)
    requires Known(reg, from)
    ensures Known(reg, Resolve(reg, from, target, draws))
  {
    var u := Resolve(reg, from, target, draws);
    if Lookup(reg, target).None? && u != from {
      var ds := draws[..MAX_RETRIES];
      var k :| 0 <= k < |ds| && reg[ds[k]].user == u;
    }
  }

  /** A text that names an entry resolves to it, the sender included, and
      draws nothing. */
  lemma ResolveMatched(reg: seq<Participant>, from: string, target: string, draws: seq<nat>)
    requires |draws| > MAX_RETRIES && ValidDraws(reg, draws)
    requires MatchIndex(reg, target) < |reg|
    ensures Resolve(reg, from, target, draws) == reg[MatchIndex(reg, target)].user
  {
  }

  /** Without a match the target is the sender only when the first
      `MAX_RETRIES` draws all named the sender; otherwise it is a drawn id
      other than the sender. */
  lemma ResolveUnmatched(reg: seq<Participant>, from: string, target: string, draws: seq<nat>)
    requires |draws| > MAX_RETRIES && ValidDraws(reg, draws)
    requires MatchIndex(reg, target) == |reg|
    ensures var u := Resolve(reg, from, target, draws);
            (u == from <==> forall k :: 0 <= k < MAX_RETRIES ==> reg[draws[k]].user == from)
            && (u != from ==> exists k :: 0 <= k < MAX_RETRIES && reg[draws[k]].user == u)
  {
    var ds := draws[..MAX_RETRIES];
    assert forall k :: 0 <= k < MAX_RETRIES ==> ds[k] == draws[k];
  }
}
