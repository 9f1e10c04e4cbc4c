/**
 * Delivery of an incoming message once its target is resolved: one visible
 * text send to the target, then one data send to every other registry
 * entry, in registry order. Nothing is sent when the target id is empty.
 */
module Dispatch {
  import opened Registry

  /** `sendText` (shown to the recipient) or `sendData` (kept in its context). */
  datatype Kind = Text | Data

  /** One call into the chat transport, with its recipient list. */
  datatype Send = Send(kind: Kind, sender: string, content: string, to: seq<string>)

  /** The ids of the entries other than `target`, in registry order. */
  function Others(reg: seq<Participant>, target: string): (us: seq<string>)
    ensures |us| <= |reg|
    ensures forall u :: u in us <==> Known(reg, u) && u != target
    decreases |reg|
  {
    if reg == [] then []
    else
      var init := reg[..|reg| - 1];
      var last := reg[|reg| - 1];
      var us := Others(init, target) + (if last.user != target then [last.user] else []);
      assert forall u :: Known(reg, u) <==> Known(init, u) || u == last.user by {
        forall u | Known(reg, u) ensures Known(init, u) || u == last.user {
          var i :| 0 <= i < |reg| && reg[i].user == u;
          if i < |init| { assert init[i] == reg[i]; }
        }
        forall u | Known(init, u) ensures Known(reg, u) {
          var i :| 0 <= i < |init| && init[i].user == u;
          assert reg[i] == init[i];
        }
      }
      us
  }

  /** Where an id known in `init` is first found does not change when an
      entry is appended. */
  lemma FindUserSnoc(init: seq<Participant>, last: Participant, u: string)
    requires Known(init, u)
    ensures FindUser(init + [last], u) == FindUser(init, u)
  {
    var reg := init + [last];
    var i := FindUser(init, u);
    assert reg[i] == init[i];
    assert forall j :: 0 <= j < i ==> reg[j] == init[j];
  }

  /** Without repeated ids, the data recipients come in registry order: each
      one's entry stands before the next one's. */
  lemma {:induction false} OthersInOrder(reg: seq<Participant>, target: string)
    requires UniqueUsers(reg)
    ensures forall i, j :: 0 <= i < j < |Others(reg, target)| ==>
              FindUser(reg, Others(reg, target)[i]) < FindUser(reg, Others(reg, target)[j])
    decreases |reg|
  {
    if reg != [] {
      var init := reg[..|reg| - 1];
      var last := reg[|reg| - 1];
      assert reg == init + [last];
      assert UniqueUsers(init) by {
        forall i, j | 0 <= i < j < |init| ensures init[i].user != init[j].user {
          assert init[i] == reg[i] && init[j] == reg[j];
        }
      }
      OthersInOrder(init, target);
      var before := Others(init, target);
      assert Others(reg, target) == before + (if last.user != target then [last.user] else []);
      forall i, j | 0 <= i < j < |Others(reg, target)|
        ensures FindUser(reg, Others(reg, target)[i]) < FindUser(reg, Others(reg, target)[j])
      {
        var us := Others(reg, target);
        assert us[i] == before[i] && before[i] in before;
        FindUserSnoc(init, last, us[i]);
        if j < |before| {
          assert us[j] == before[j] && before[j] in before;
          FindUserSnoc(init, last, us[j]);
        } else {
          assert us[j] == last.user;
          assert FindUser(reg, last.user) == |init| by {
            assert reg[|init|].user == last.user;
            assert forall k :: 0 <= k < |init| ==> reg[k].user != last.user;
          }
        }
      }
    }
  }

  /** One data send per id, in order. */
  function Notices(sender: string, content: string, us: seq<string>): seq<Send>
  {
    seq(|us|, i requires 0 <= i < |us| => Send(Data, sender, content, [us[i]]))
  }

  /** One more recipient adds one more data send at the end. */
  lemma NoticesSnoc(sender: string, content: string, us: seq<string>, u: string)
    ensures Notices(sender, content, us + [u]) == Notices(sender, content, us) + [Send(Data, sender, content, [u])]
  {
    assert forall i :: 0 <= i < |us| ==> (us + [u])[i] == us[i];
  }

  /** The sends for a message from `sender` with text `content` once the
      target id is `target`. */
  function Plan(reg: seq<Participant>, sender: string, content: string, target: string): seq<Send>
  {
    if target == "" then [] else [Send(Text, sender, content, [target])] + Notices(sender, content, Others(reg, target))
  }

  /** The first send is the only visible one and goes to the target alone;
      every later send is a data send to a single registry id that is not
      the target; an empty target sends nothing. */
  lemma PlanShape(reg: seq<Participant>, sender: string, content: string, target: string)
    ensures var sends := Plan(reg, sender, content, target);
            (target == "" <==> sends == [])
            && (target != "" ==> sends[0] == Send(Text, sender, content, [target]))
            && forall k :: 1 <= k < |sends| ==>
                 sends[k].kind == Data && sends[k].sender == sender && sends[k].content == content
                 && |sends[k].to| == 1 && sends[k].to[0] != target && Known(reg, sends[k].to[0])
  {
    var sends := Plan(reg, sender, content, target);
    if target != "" {
      var us := Others(reg, target);
      forall k | 1 <= k < |sends|
        ensures sends[k] == Send(Data, sender, content, [us[k - 1]]) && us[k - 1] in us
      {
      }
    }
  }

  /** Every registry id other than a non-empty target receives a data send,
      the sender's own id included; the target never does. */
  lemma PlanNotifiesOthers(reg: seq<Participant>, sender: string, content: string, target: string, u: string)
    ensures var sends := Plan(reg, sender, content, target);
            (exists k :: 0 <= k < |sends| && sends[k] == Send(Data, sender, content, [u]))
            <==> target != "" && Known(reg, u) && u != target
  {
    var sends := Plan(reg, sender, content, target);
    if target != "" {
      var us := Others(reg, target);
      if Known(reg, u) && u != target {
        var i :| 0 <= i < |us| && us[i] == u;
        assert sends[i + 1] == Send(Data, sender, content, [u]);
      }
      if exists k :: 0 <= k < |sends| && sends[k] == Send(Data, sender, content, [u]) {
        var k :| 0 <= k < |sends| && sends[k] == Send(Data, sender, content, [u]);
        assert k > 0 && sends[k] == Send(Data, sender, content, [us[k - 1]]);
        assert us[k - 1] in us;
      }
    }
  }

  /** Without repeated ids, a known target excludes exactly one entry. */
  lemma {:induction false} OthersCount(reg: seq<Participant>, target: string)
    requires UniqueUsers(reg)
    ensures |Others(reg, target)| == |reg| - (if Known(reg, target) then 1 else 0)
    decreases |reg|
  {
    if reg != [] {
      var init := reg[..|reg| - 1];
      var last := reg[|reg| - 1];
      assert UniqueUsers(init) by {
        forall i, j | 0 <= i < j < |init| ensures init[i].user != init[j].user {
          assert init[i] == reg[i] && init[j] == reg[j];
        }
      }
      OthersCount(init, target);
      assert Known(reg, target) <==> Known(init, target) || last.user == target by {
        if Known(reg, target) && last.user != target {
          var i :| 0 <= i < |reg| && reg[i].user == target;
          assert init[i] == reg[i];
        }
        if Known(init, target) {
          var i :| 0 <= i < |init| && init[i].user == target;
          assert reg[i] == init[i];
        }
      }
    }
  }

  /** In a registry without repeated ids, a message to a known target makes
      exactly as many sends as there are entries: one visible, and one data
      send to each of the others. */
  lemma PlanCount(reg: seq<Participant>, sender: string, content: string, target: string)
    requires UniqueUsers(reg) && Known(reg, target) && target != ""
    ensures |Plan(reg, sender, content, target)| == |reg|
  {
    OthersCount(reg, target);
  }
}
