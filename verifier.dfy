/**
  `verify_email`, the orchestrator. The process-global timestamp
  `last_verification_time` becomes the field of a `Verifier` object; the
  caller passes the clock reading at entry as integer ticks, the DNS lookup
  as a function from domain to answer and the network as a function from
  hostname to scripted server.

  The rate-limit gate runs first on every call. Then come the syntax check,
  the domain (`email.split('@')[1]`), the MX lookup and the fallback loop
  over the exchangers, which stops at the first probe that either had RCPT TO
  accepted or at least connected, and keeps the last probe as the result.
 */
module Verifier {
  import opened Optional
  import opened Text
  import opened Syntax
  import opened Mx
  import opened Smtp

  const RATE_LIMIT_SECONDS := 5

  /** The result dictionary of `verify_email`. */
  datatype VerificationResult = VerificationResult(
    email: string,
    validSyntax: bool,
    domain: Option<string>,
    mxRecords: seq<string>,
    smtpCheck: Option<ProbeResult>,
    deliverable: bool)

  /** The result a call starts from, and returns as it is when the syntax is invalid. */
  function Unverified(email: string): VerificationResult
  {
    VerificationResult(email, false, None, [], None, false)
  }

  /**
    The clock reading after the gate: the entry time, or, when the last pass
    was less than RATE_LIMIT_SECONDS ago, the entry time plus the exact sleep
    that makes up the difference.
   */
  function GatePass(now: int, last: int): (t: int)
    ensures t >= now && t >= last + RATE_LIMIT_SECONDS
    ensures t == now || t == last + RATE_LIMIT_SECONDS
  {
    var elapsed := now - last;
    if elapsed < RATE_LIMIT_SECONDS then now + (RATE_LIMIT_SECONDS - elapsed) else now
  }

  /** Every two successive gate passes are at least RATE_LIMIT_SECONDS apart. */
  ghost predicate Spaced(passes: seq<int>)
  {
    |passes| <= 1 ||
    (Spaced(passes[..|passes| - 1]) && passes[|passes| - 2] + RATE_LIMIT_SECONDS <= passes[|passes| - 1])
  }

  /** A pass at least RATE_LIMIT_SECONDS after the last one keeps the passes spaced. */
  lemma SpacedExtend(passes: seq<int>, t: int)
    requires |passes| >= 1 && Spaced(passes)
    requires passes[|passes| - 1] + RATE_LIMIT_SECONDS <= t
    ensures Spaced(passes + [t])
  {
    assert (passes + [t])[..|passes|] == passes;
  }

  /** The gap between any two gate passes grows with the number of calls between them. */
  lemma {:induction false} SpacedApart(passes: seq<int>, i: nat, j: nat)
    requires Spaced(passes) && i <= j < |passes|
    ensures passes[j] - passes[i] >= (j - i) * RATE_LIMIT_SECONDS
  {
    if i < j {
      var init := passes[..|passes| - 1];
      if j < |passes| - 1 {
        SpacedApart(init, i, j);
      } else {
        SpacedApart(init, i, j - 1);
      }
    }
  }

  /** The probe of `host` on the given network. */
  function ProbeOf(host: string, network: string -> Server): ProbeResult
  {
    Expected(host, network(host))
  }

  /** The client could not even connect to `host`. */
  predicate ConnectFails(host: string, network: string -> Server)
  {
    network(host).connect.Raise?
  }

  /**
    The loop moves on to the next host exactly when the probe neither had RCPT TO
    accepted nor connected, which is exactly when the connection failed.
   */
  lemma MovesOnIffConnectFails(host: string, network: string -> Server)
    ensures var p := ProbeOf(host, network);
      (!p.rcptToOk && !p.connected) <==> ConnectFails(host, network)
  {
  }

  /**
    How many hosts the fallback loop probes: every host up to and including
    the first one it could connect to (all of them if there is none).
   */
  function ProbeCount(hosts: seq<string>, network: string -> Server): (n: nat)
    ensures n <= |hosts|
    ensures n == 0 <==> hosts == []
    ensures forall j :: 0 <= j < n - 1 ==> ConnectFails(hosts[j], network)
    ensures 0 < n < |hosts| ==> !ConnectFails(hosts[n - 1], network)
  {
    if hosts == [] then 0
    else if ConnectFails(hosts[0], network) then
      var rest := ProbeCount(hosts[1..], network);
      assert forall j :: 1 <= j < rest + 1 ==> hosts[j] == hosts[1..][j - 1];
      1 + rest
    else 1
  }

  /** The hosts the fallback loop probes, in order. */
  function Probed(hosts: seq<string>, network: string -> Server): (probed: seq<string>)
  {
    hosts[..ProbeCount(hosts, network)]
  }

  /**
    The loop probes hosts in order, moves past a host only when the connection
    failed, and stops early only at a host it could connect to.
   */
  lemma ProbedInOrder(hosts: seq<string>, network: string -> Server)
    ensures var probed := Probed(hosts, network);
      && |probed| <= |hosts| && probed == hosts[..|probed|]
      && (probed == [] <==> hosts == [])
      && (forall j :: 0 <= j < |probed| - 1 ==> ConnectFails(probed[j], network))
      && (0 < |probed| < |hosts| ==> !ConnectFails(probed[|probed| - 1], network))
  {
  }

  /** One step of the fallback loop at position `i`. */
  lemma ProbeCountStep(hosts: seq<string>, i: nat, network: string -> Server)
    requires i < |hosts|
    ensures ProbeCount(hosts[i..], network) ==
      if ConnectFails(hosts[i], network) then 1 + ProbeCount(hosts[i + 1..], network) else 1
    ensures i == |hosts| - 1 ==> ProbeCount(hosts[i + 1..], network) == 0
  {
    assert hosts[i..][0] == hosts[i] && hosts[i..][1..] == hosts[i + 1..];
  }

  /** The loop ends at the first host, in MX order, that it could connect to. */
  lemma {:induction false} FirstReachableEndsLoop(hosts: seq<string>, network: string -> Server, k: nat)
    requires k < |hosts| && !ConnectFails(hosts[k], network)
    requires forall j :: 0 <= j < k ==> ConnectFails(hosts[j], network)
    ensures Probed(hosts, network) == hosts[..k + 1]
  {
    if k > 0 {
      FirstReachableEndsLoop(hosts[1..], network, k - 1);
    }
  }

  /** When no host can be connected to, the loop probes every one of them. */
  lemma {:induction false} AllUnreachableProbesAll(hosts: seq<string>, network: string -> Server)
    requires forall j :: 0 <= j < |hosts| ==> ConnectFails(hosts[j], network)
    ensures Probed(hosts, network) == hosts
  {
    if hosts != [] {
      AllUnreachableProbesAll(hosts[1..], network);
    }
  }

  /** The last host the fallback loop probes, on a non-empty list. */
  function LastProbed(hosts: seq<string>, network: string -> Server): (h: string)
    requires hosts != []
    ensures h in hosts
  {
    hosts[ProbeCount(hosts, network) - 1]
  }

  /**
    What a call of `verify_email` returns, given the resolver and the network.
   */
  function Verification(email: string, resolver: string -> DnsAnswer, network: string -> Server): (r: VerificationResult)
    ensures r.email == email
    ensures r.validSyntax <==> ValidateSyntax(email)
    ensures !r.validSyntax ==> r == Unverified(email)
    ensures r.validSyntax ==> r.domain == Some(Domain(email)) && r.mxRecords == GetMxRecords(resolver(Domain(email)))
    ensures r.mxRecords == [] ==> r.smtpCheck == None && !r.deliverable
    ensures r.mxRecords != [] ==> r.smtpCheck == Some(ProbeOf(LastProbed(r.mxRecords, network), network))
    ensures r.deliverable <==> r.smtpCheck.Some? && r.smtpCheck.value.rcptToOk
    ensures r.deliverable ==> r.validSyntax && r.mxRecords != []
    ensures r.deliverable ==>
      var host := r.smtpCheck.value.mxHost;
      host in r.mxRecords && Accepted(network(host).rcpt) && r.smtpCheck.value.connected
  {
    if !ValidateSyntax(email) then Unverified(email)
    else
      var domain := Domain(email);
      var mx := GetMxRecords(resolver(domain));
      if mx == [] then VerificationResult(email, true, Some(domain), [], None, false)
      else
        var check := ProbeOf(LastProbed(mx, network), network);
        VerificationResult(email, true, Some(domain), mx, Some(check), check.rcptToOk)
  }

  /**
    The fallback loop of `verify_email` over the exchangers, in order: it
    probes each host, keeps the last probe, and stops at the first host whose
    RCPT TO was accepted (deliverable) or that at least connected. Also returns
    the hosts it probed.
   */
  method ProbeInOrder(email: string, hosts: seq<string>, network: string -> Server)
    returns (check: Option<ProbeResult>, deliverable: bool, probed: seq<string>)
    ensures probed == Probed(hosts, network)
    ensures hosts == [] ==> check == None
    ensures hosts != [] ==> check == Some(ProbeOf(LastProbed(hosts, network), network))
    ensures deliverable <==> check.Some? && check.value.rcptToOk
  {
    check := None;
    deliverable := false;
    probed := [];
    assert hosts[0..] == hosts;
    for i := 0 to |hosts|
      invariant probed == hosts[..i]
      invariant ProbeCount(hosts, network) == i + ProbeCount(hosts[i..], network)
      invariant i == 0 ==> check == None
      invariant 0 < i ==> check == Some(ProbeOf(hosts[i - 1], network)) && ConnectFails(hosts[i - 1], network)
      invariant !deliverable
    {
      var smtpResult, sent := VerifySmtp(email, hosts[i], network(hosts[i]));
      ProbeCountStep(hosts, i, network);
      probed := probed + [sent[0].host];
      assert probed == hosts[..i + 1];
      check := Some(smtpResult);

      if smtpResult.rcptToOk {
        deliverable := true;
        assert ProbeCount(hosts, network) == i + 1;
        break;
      }

      if smtpResult.connected {
        assert ProbeCount(hosts, network) == i + 1;
        break;
      }
    }
  }

  /** The holder of the process-wide rate-limit timestamp, and the orchestrator that uses it. */
  class Verifier {
    var lastVerificationTime: int
    /** Every value the timestamp has had, oldest first. */
    ghost var passes: seq<int>

    ghost predicate Valid()
      reads this
    {
      |passes| >= 1 && passes[|passes| - 1] == lastVerificationTime && Spaced(passes)
    }

    /** The state at module load: the timestamp is 0. */
    constructor ()
      ensures Valid()
      ensures lastVerificationTime == 0 && passes == [0]
    {
      lastVerificationTime := 0;
      passes := [0];
    }

    /**
      `verify_email(email)` called with the clock reading `now`. Also returns
      the hosts it probed, in the order it probed them.
     */
    method VerifyEmail(email: string, now: int, resolver: string -> DnsAnswer, network: string -> Server)
      returns (result: VerificationResult, probed: seq<string>)
      requires Valid()
      modifies this
      ensures Valid()
      ensures lastVerificationTime == GatePass(now, old(lastVerificationTime))
      ensures lastVerificationTime >= old(lastVerificationTime) + RATE_LIMIT_SECONDS
      ensures passes == old(passes) + [lastVerificationTime]
      ensures result == Verification(email, resolver, network)
      ensures probed == Probed(result.mxRecords, network)
      ensures result.mxRecords == [] ==> probed == []
    {
      // The rate-limit gate, before anything else.
      var elapsed := now - lastVerificationTime;
      var clock := now;
      if elapsed < RATE_LIMIT_SECONDS {
        var waitTime := RATE_LIMIT_SECONDS - elapsed;
        clock := clock + waitTime;  // the sleep, taken as exact
      }
      SpacedExtend(passes, clock);
      lastVerificationTime := clock;
      passes := passes + [clock];

      result := Unverified(email);
      probed := [];

      if !ValidateSyntax(email) {
        return;
      }
      result := result.(validSyntax := true);

      ValidHasOneAt(email);
      var domain := Split(email, '@')[1];
      result := result.(domain := Some(domain));

      var mxRecords := GetMxRecords(resolver(domain));
      result := result.(mxRecords := mxRecords);

      if |mxRecords| == 0 {
        return;
      }

      // The fallback loop over the exchangers.
      var check, deliverable;
      check, deliverable, probed := ProbeInOrder(email, mxRecords, network);
      result := result.(smtpCheck := check, deliverable := deliverable);
    }
  }
}
