/**
 The API health indicator (src/components/ApiStatus.jsx): one probe of
 the health endpoint when the component mounts, a status that starts as
 "checking" and becomes "online" or "offline" when the probe settles,
 and a colour and text for each status. `App` does not render this
 component; the model describes how it behaves once mounted.

 The status is kept as a string, as in the source, so that the `default`
 branch of the mapping covers "checking" and any other value alike.
 */
module ApiStatus {
  import opened Optional
  import ProductApi

  /** The health probe always targets the local development server; it
      does not read the base-URL override the product client honours. */
  const HealthBaseUrl: string := "http://localhost:5103"
  const HealthUrl: string := HealthBaseUrl + "/health"

  const Checking: string := "checking"
  const Online: string := "online"
  const Offline: string := "offline"

  /** `pending` is true while the single probe is outstanding. */
  datatype HealthState = HealthState(status: string, pending: bool)

  /** Mounted: the probe has been sent and nothing is known yet. */
  const Initial: HealthState := HealthState(Checking, true)

  /** How the probe settled: any 2xx response, or a rejection. */
  datatype ProbeResult = Reachable | Unreachable

  /** The probe settles; with no probe outstanding there is nothing to
      settle and the state stays as it is. */
  function Settle(s: HealthState, result: ProbeResult): (r: HealthState)
    ensures !r.pending
    ensures s.pending ==> (r.status == Online <==> result.Reachable?)
    ensures s.pending ==> (r.status == Offline <==> result.Unreachable?)
    ensures !s.pending ==> r == s
  {
    if !s.pending then s
    else HealthState(if result.Reachable? then Online else Offline, false)
  }

  /** Settles a sequence of probe outcomes in order. Only the first can
      matter: the component sends exactly one probe. */
  function SettleAll(s: HealthState, results: seq<ProbeResult>): HealthState
    decreases |results|
  {
    if |results| == 0 then s else SettleAll(Settle(s, results[0]), results[1..])
  }

  /** How many steps of the sequence change the status. */
  function StatusChanges(s: HealthState, results: seq<ProbeResult>): nat
    decreases |results|
  {
    if |results| == 0 then 0
    else
      var next := Settle(s, results[0]);
      (if next.status != s.status then 1 else 0) + StatusChanges(next, results[1..])
  }

  lemma {:induction false} SettledStaysPut(s: HealthState, results: seq<ProbeResult>)
    requires !s.pending
    ensures SettleAll(s, results) == s
    ensures StatusChanges(s, results) == 0
    decreases |results|
  {
    if |results| > 0 {
      SettledStaysPut(Settle(s, results[0]), results[1..]);
    }
  }

  /** The status is "checking" until the probe settles, is then decided
      by the first outcome alone, and changes at most once. */
  lemma StatusLeavesCheckingOnce(results: seq<ProbeResult>)
    ensures |results| == 0 ==> SettleAll(Initial, results).status == Checking
    ensures |results| > 0 ==>
      SettleAll(Initial, results).status == (if results[0].Reachable? then Online else Offline)
    ensures StatusChanges(Initial, results) <= 1
  {
    if |results| > 0 {
      SettledStaysPut(Settle(Initial, results[0]), results[1..]);
    }
  }

  /** The `switch` on the status: a colour and a text for every string. */
  function Indicator(status: string): (r: (string, string))
    ensures r == ("green", "API Online") <==> status == Online
    ensures r == ("red", "API Offline") <==> status == Offline
    ensures r == ("gray", "Checking API...") <==> status != Online && status != Offline
  {
    if status == Online then ("green", "API Online")
    else if status == Offline then ("red", "API Offline")
    else ("gray", "Checking API...")
  }

  /** The health probe and the product request reach the same server
      exactly when the product client runs without an override, or with
      an override equal to the default. */
  lemma HealthIgnoresOverride(envOverride: Option<string>)
    ensures HealthBaseUrl == ProductApi.DefaultBaseUrl
    ensures (ProductApi.BaseUrl(envOverride) + "/health" == HealthUrl)
      <==> (envOverride.None? || envOverride.value == ProductApi.DefaultBaseUrl)
  {
    var base := ProductApi.BaseUrl(envOverride);
    var suffix := "/health";
    if base + suffix == HealthUrl {
      assert base == (base + suffix)[..|base + suffix| - |suffix|];
      assert HealthBaseUrl == HealthUrl[..|HealthUrl| - |suffix|];
    }
  }
}
