/**
 * The backend's shared state (`RECENT_ALERTS` and `manager`) and the two
 * ways alerts enter it: the `/ingest` endpoint and the MQTT payload
 * handler, which calls the same `ingest`.
 */
module Backend {
  import opened Wrappers
  import opened Alerts
  import opened Connections
  import Mqtt

  /** The JSON reply of `/ingest`. */
  datatype IngestReply = IngestReply(ingested: bool, malicious: bool, score: Option<real>, timestamp: string)

  /** The state `ingest` reads and writes: the alert buffer, the live handles, the sends made. */
  datatype State = State(alerts: seq<Alert>, active: seq<Socket>, sent: seq<Delivery>)

  /**
   * Everything `ingest` is given or draws from the outside: the feature
   * record, what the classifier does with it, the clock readings for the
   * timestamp and the id, and the outcome of each send of the broadcast.
   */
  datatype Request = Request(features: Features, outcome: ClassifierOutcome, timestamp: string, id: string, sendOk: seq<bool>)

  /** The alert `ingest` builds for a request. */
  function AlertFor(req: Request): Alert
  {
    var v := PredictFromFeatures(req.outcome);
    Alert(req.id, v.malicious, v.score, req.timestamp, req.features)
  }

  /**
   * One `ingest` call on state `st`: a malicious verdict stores the alert
   * (evicting the oldest when over the limit) and then broadcasts it; a
   * benign verdict changes nothing. The reply is the same either way.
   */
  function IngestStep(st: State, req: Request): (r: (State, IngestReply))
    requires |req.sendOk| == |st.active|
    ensures r.1.ingested && r.1.timestamp == req.timestamp
    ensures (r.1.malicious, r.1.score) == (PredictFromFeatures(req.outcome).malicious, PredictFromFeatures(req.outcome).score)
    ensures !r.1.malicious ==> r.0 == st
    ensures r.1.malicious ==> r.0.alerts == Admit(st.alerts, AlertFor(req))
    ensures r.1.malicious ==> r.0.sent == st.sent + Attempts(st.active, AlertFor(req), req.sendOk)
    ensures r.1.malicious ==> r.0.active == DisconnectAll(st.active, Failed(st.active, req.sendOk))
  {
    var v := PredictFromFeatures(req.outcome);
    var alert := AlertFor(req);
    var reply := IngestReply(true, v.malicious, v.score, req.timestamp);
    if v.malicious then
      var stored := Admit(st.alerts, alert);
      (State(stored, DisconnectAll(st.active, Failed(st.active, req.sendOk)), st.sent + Attempts(st.active, alert, req.sendOk)), reply)
    else
      (st, reply)
  }

  /** The buffer invariant: within the limit and holding only malicious alerts. */
  predicate BufferOk(alerts: seq<Alert>)
  {
    |alerts| <= RecentLimit && AllMalicious(alerts)
  }

  /** Every `ingest` keeps the buffer invariant, and every broadcast carries the alert just stored. */
  lemma IngestKeepsBuffer(st: State, req: Request)
    requires |req.sendOk| == |st.active|
    requires BufferOk(st.alerts)
    ensures BufferOk(IngestStep(st, req).0.alerts)
    ensures var after := IngestStep(st, req).0;
      forall k :: |st.sent| <= k < |after.sent| ==>
        after.sent[k].message.malicious && after.sent[k].message == after.alerts[|after.alerts| - 1]
  {
    AttemptsInOrder(st.active, AlertFor(req), req.sendOk);
  }

  /** The MQTT handler's result: which of its three paths a payload took. */
  datatype PayloadOutcome = Ingested(reply: IngestReply) | NotAnObject | Undecodable

  class App {
    /** `RECENT_ALERTS`. */
    var recentAlerts: seq<Alert>
    /** `manager`. */
    const manager: ConnectionManager

    ghost predicate Valid()
      reads this
    {
      BufferOk(recentAlerts)
    }

    function Snapshot(): State
      reads this, manager
    {
      State(recentAlerts, manager.active, manager.sent)
    }

    constructor ()
      ensures Valid() && fresh(manager)
      ensures Snapshot() == State([], [], [])
    {
      recentAlerts := [];
      manager := new ConnectionManager();
    }

    /** `ingest`: classify, and store and broadcast only a malicious alert. */
    method Ingest(req: Request) returns (reply: IngestReply)
      requires |req.sendOk| == |manager.active|
      modifies this, manager
      ensures (Snapshot(), reply) == IngestStep(old(Snapshot()), req)
      ensures old(Valid()) ==> Valid()
    {
      var v := PredictFromFeatures(req.outcome);
      var alert := Alert(req.id, v.malicious, v.score, req.timestamp, req.features);
      if v.malicious {
        recentAlerts := recentAlerts + [alert];
        if |recentAlerts| > RecentLimit {
          recentAlerts := recentAlerts[1..];
        }
        manager.Broadcast(alert, req.sendOk);
      }
      reply := IngestReply(true, v.malicious, v.score, req.timestamp);
      if old(Valid()) {
        IngestKeepsBuffer(old(Snapshot()), req);
      }
    }

    /**
     * `_handle_mqtt_payload`: a decoded JSON object is ingested like a
     * request body; anything else, and any decoding failure, is dropped
     * without touching the state.
     */
    method HandleMqttPayload(decoded: Option<Json>, outcome: ClassifierOutcome, timestamp: string, id: string, sendOk: seq<bool>)
      returns (result: PayloadOutcome)
      requires |sendOk| == |manager.active|
      modifies this, manager
      ensures Mqtt.PayloadFeatures(decoded).None? ==> Snapshot() == old(Snapshot())
      ensures decoded.None? <==> result.Undecodable?
      ensures decoded.Some? && !decoded.value.Object? <==> result.NotAnObject?
      ensures Mqtt.PayloadFeatures(decoded).Some? ==>
        var step := IngestStep(old(Snapshot()), Request(Mqtt.PayloadFeatures(decoded).value, outcome, timestamp, id, sendOk));
        Snapshot() == step.0 && result == Ingested(step.1)
      ensures old(Valid()) ==> Valid()
    {
      match decoded {
        case None =>
          result := Undecodable;
        case Some(doc) =>
          var features := Mqtt.PayloadFeatures(decoded);
          if features.Some? {
            var reply := Ingest(Request(features.value, outcome, timestamp, id, sendOk));
            result := Ingested(reply);
          } else {
            result := NotAnObject;
          }
      }
    }
  }
}
