/**
 * The boot-time sweep over the root-hub ports of the xHC
 * (kernel/main.cpp:277-288): every port from 1 to MaxPorts is inspected,
 * and ConfigurePort is called on exactly the connected ones. A port whose
 * configuration fails is logged and skipped; the sweep goes on.
 */
module PortSweep {

  import opened KernelTypes

  /**
   * Stand-in for usb::xhci::Controller as the sweep sees it. Its source is
   * not part of this model: the connect status of port `n` (1-based) is
   * `portConnected[n - 1]`, and `failing` is the set of ports whose
   * configuration reports an error.
   */
  class Controller {
    var portConnected: seq<bool>
    var failing: set<nat>
    var configured: seq<nat>   // ports passed to ConfigurePort, in call order

    function MaxPorts(): nat
      reads this
    {
      |portConnected|
    }

    /** PortAt(port).IsConnected() */
    function IsConnected(port: nat): bool
      requires 1 <= port <= MaxPorts()
      reads this
    {
      portConnected[port - 1]
    }

    /** Stand-in for usb::xhci::ConfigurePort(xhc, PortAt(port)). */
    method ConfigurePort(port: nat) returns (err: Error)
      modifies this`configured
      ensures configured == old(configured) + [port]
      ensures err.Failure? <==> port in failing
    {
      configured := configured + [port];
      err := if port in failing then Failure(0) else Success;
    }
  }

  /** The connected ports among 1..|connected|, in ascending order. */
  function ConnectedPorts(connected: seq<bool>): seq<nat>
    decreases |connected|
  {
    if connected == [] then []
    else
      ConnectedPorts(connected[..|connected| - 1])
      + if connected[|connected| - 1] then [|connected|] else []
  }

  /** The connected ports whose configuration fails, in ascending order. */
  function FailedPorts(connected: seq<bool>, failing: set<nat>): seq<nat>
    decreases |connected|
  {
    if connected == [] then []
    else
      FailedPorts(connected[..|connected| - 1], failing)
      + if connected[|connected| - 1] && |connected| in failing then [|connected|] else []
  }

  /**
   * ConnectedPorts lists a port exactly when it is in range and connected,
   * strictly ascending.
   */
  lemma {:induction false} ConnectedPortsExact(connected: seq<bool>)
    ensures forall p :: p in ConnectedPorts(connected) <==> 1 <= p <= |connected| && connected[p - 1]
    ensures forall i, j :: 0 <= i < j < |ConnectedPorts(connected)| ==>
              ConnectedPorts(connected)[i] < ConnectedPorts(connected)[j]
    decreases |connected|
  {
    if connected != [] {
      var prefix := connected[..|connected| - 1];
      ConnectedPortsExact(prefix);
      var earlier := ConnectedPorts(prefix);
      var last := if connected[|connected| - 1] then [|connected|] else [];
      assert ConnectedPorts(connected) == earlier + last;
      forall p
        ensures p in ConnectedPorts(connected) <==> 1 <= p <= |connected| && connected[p - 1]
      {
        if 1 <= p <= |prefix| {
          assert prefix[p - 1] == connected[p - 1];
        }
      }
      forall i | 0 <= i < |earlier|
        ensures earlier[i] < |connected|
      {
        assert earlier[i] in earlier;
      }
      var whole := ConnectedPorts(connected);
      forall i, j | 0 <= i < j < |whole|
        ensures whole[i] < whole[j]
      {
        assert whole[i] == earlier[i];
        if j < |earlier| {
          assert whole[j] == earlier[j];
        }
      }
    }
  }

  /**
   * FailedPorts lists a port exactly when it is connected and its
   * configuration fails.
   */
  lemma {:induction false} FailedPortsExact(connected: seq<bool>, failing: set<nat>)
    ensures forall p :: p in FailedPorts(connected, failing) <==>
              1 <= p <= |connected| && connected[p - 1] && p in failing
    decreases |connected|
  {
    if connected != [] {
      var prefix := connected[..|connected| - 1];
      FailedPortsExact(prefix, failing);
      assert forall j :: 0 <= j < |prefix| ==> prefix[j] == connected[j];
    }
  }

  /**
   * Sweeps ports 1..MaxPorts, configuring the connected ones. Returns the
   * ports whose configuration failed, in the order their errors are logged.
   * Which ports are configured does not depend on which of them fail.
   */
  method ConfigureConnectedPorts(xhc: Controller) returns (failed: seq<nat>)
    modifies xhc`configured
    ensures xhc.configured == old(xhc.configured) + ConnectedPorts(xhc.portConnected)
    ensures failed == FailedPorts(xhc.portConnected, xhc.failing)
  {
    failed := [];
    for i := 1 to xhc.MaxPorts() + 1
      invariant xhc.configured == old(xhc.configured) + ConnectedPorts(xhc.portConnected[..i - 1])
      invariant failed == FailedPorts(xhc.portConnected[..i - 1], xhc.failing)
    {
      assert xhc.portConnected[..i][..i - 1] == xhc.portConnected[..i - 1];
      if xhc.IsConnected(i) {
        var err := xhc.ConfigurePort(i);
        if err.Failure? {
          failed := failed + [i];
          continue;
        }
      }
    }
    assert xhc.portConnected[..xhc.MaxPorts()] == xhc.portConnected;
  }
}
