/** All nodes together.  Every node has its own key, counter, channel and share of
    the gateway's tables; a gateway crash hits all of them at once. */
module Fleet {
  import opened Bytes
  import opened Machine
  import opened Delivery
  import opened Protocol
  import DeliverySafety
  import Frames

  type Nodes = map<u16, Lane>

  /** One node's lane moves, or the gateway goes down for all. */
  datatype Step = Move(node: u16, step: Delivery.Step) | GatewayDown

  function Apply(fleet: Nodes, step: Step): Nodes {
    match step
    case Move(n, st) => if n in fleet then fleet[n := Delivery.Apply(fleet[n], st)] else fleet
    case GatewayDown => map n | n in fleet :: Delivery.Apply(fleet[n], GwCrash)
  }

  /** The part of a fleet's run that one node sees. */
  function Seen(n: u16, steps: seq<Step>): seq<Delivery.Step>
    decreases |steps|
  {
    if steps == [] then []
    else (match steps[0]
          case Move(m, st) => if m == n then [st] else []
          case GatewayDown => [GwCrash]) + Seen(n, steps[1..])
  }

  /** What a node goes through in the fleet is a run of its own machine. */
  lemma {:induction false} Projects(fleet: Nodes, steps: seq<Step>, n: u16)
    requires n in fleet
    ensures n in Run<Nodes, Step>(Apply, fleet, steps) && Run<Nodes, Step>(Apply, fleet, steps)[n] == Run(Delivery.Apply, fleet[n], Seen(n, steps))
    decreases |steps|
  {
    hide Delivery.Apply;
    if steps != [] {
      Projects(Apply(fleet, steps[0]), steps[1..], n);
      var rest := Seen(n, steps[1..]);
      if steps[0] == GatewayDown || steps[0].node == n {
        var st := if steps[0] == GatewayDown then GwCrash else steps[0].step;
        assert Seen(n, steps) == [st] + rest;
        assert Seen(n, steps)[0] == st && Seen(n, steps)[1..] == rest;
      } else {
        assert Seen(n, steps) == [] + rest == rest;
      }
    }
  }

  /** Every node is new, each with a configuration of its own. */
  predicate Fresh(fleet: Nodes) {
    forall n | n in fleet :: fleet[n].node.sq.rtc < TWO_32 && fleet[n] == Start(fleet[n].cfg, fleet[n].node.sq.rtc)
  }

  /** In every run of the whole network each (node, SEQ) has at most one row, and
      every SEQ that a node with acknowledgements enabled reports as ACKED had
      been accepted. */
  lemma FleetSafety(fleet: Nodes, steps: seq<Step>, n: u16)
    requires Fresh(fleet) && n in fleet
    ensures n in Run<Nodes, Step>(Apply, fleet, steps)
    ensures var s := Run<Nodes, Step>(Apply, fleet, steps)[n];
            && (forall i, j | 0 <= i < j < |s.gw.rows| :: s.gw.rows[i].seqNo != s.gw.rows[j].seqNo)
            && (s.cfg.ackEnable ==> forall k | k in s.past.acked :: k in s.past.accepted)
            && s.cfg == fleet[n].cfg
  {
    hide Run, Start, SetsInv, RowsInv, AckInv, NodeInv;
    var cfg, rtc: u32 := fleet[n].cfg, fleet[n].node.sq.rtc;
    Projects(fleet, steps, n);
    var seen := Seen(n, steps);
    DeliverySafety.RowsAtMostOnce(cfg, rtc, seen);
    DeliverySafety.Reached(cfg, rtc, seen);
    var s := Run<Nodes, Step>(Apply, fleet, steps)[n];
    if cfg.ackEnable {
      forall k | k in s.past.acked ensures k in s.past.accepted {
        DeliverySafety.AckedWasAccepted(cfg, rtc, seen, k);
      }
    }
  }

  /** The uplink frames of a node that have gone on the air. */
  function Radiated(fleet: Nodes, steps: seq<Step>, n: u16): set<Uplink> {
    var after := Run<Nodes, Step>(Apply, fleet, steps);
    if n in after then after[n].air else {}
  }

  /** Anywhere in the network, two uplink frames sealed under one nonce are the same
      frame of the same node. */
  lemma FleetNonces(fleet: Nodes, steps: seq<Step>, netId: byte, n: u16, m: u16, f: Uplink, g: Uplink)
    requires Fresh(fleet) && n in fleet && m in fleet
    requires f in Radiated(fleet, steps, n) && g in Radiated(fleet, steps, m)
    ensures f.seqNo <= SEQ_MAX && g.seqNo <= SEQ_MAX
    ensures Frames.NonceOf(DeliverySafety.UplinkHeader(netId, n, f)) == Frames.NonceOf(DeliverySafety.UplinkHeader(netId, m, g))
            ==> n == m && f == g
  {
    hide Run, Start, Frames.NonceOf;
    Projects(fleet, steps, n);
    Projects(fleet, steps, m);
    DeliverySafety.NonceNeverReused(fleet[n].cfg, fleet[n].node.sq.rtc, Seen(n, steps), netId, n, f, f);
    DeliverySafety.NonceNeverReused(fleet[m].cfg, fleet[m].node.sq.rtc, Seen(m, steps), netId, m, g, g);
    var h1, h2 := DeliverySafety.UplinkHeader(netId, n, f), DeliverySafety.UplinkHeader(netId, m, g);
    if Frames.NonceOf(h1) == Frames.NonceOf(h2) {
      Frames.HeaderNonceInjective(h1, h2);
      DeliverySafety.NonceNeverReused(fleet[n].cfg, fleet[n].node.sq.rtc, Seen(n, steps), netId, n, f, g);
    }
  }
}
