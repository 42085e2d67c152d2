/** The address counter of the UDP client, and the sweep that is driven by it. */
module SubAddr {
  import Handshake

  class UdpClient {
    var subIp: nat
    /** Last octet of the address the next datagram goes to. */
    var addrTo: nat

    constructor () {
      subIp, addrTo := 0, 0;
    }

    method ResetSubAddr()
      modifies `subIp
      ensures subIp == 1
    {
      subIp := 1;
    }

    method PrepareSubAddr() returns (finish: bool)
      modifies this
      ensures addrTo == old(subIp)
      ensures finish <==> old(subIp) >= 254
      ensures subIp == if finish then old(subIp) else old(subIp) + 1
    {
      addrTo := subIp;
      finish := false;
      if subIp < Handshake.LAST_ADDR {
        subIp := subIp + 1;
      } else {
        finish := true;
      }
    }

    /**
     `udp_broadcast_data`. `readEnd(i)` is what the i-th check of the flag sees: the sweep probes 1, 2, ... in order
     and stops at the first check that sees it set, or after 254.
     */
    method Broadcast(readEnd: nat -> bool) returns (probed: seq<nat>)
      modifies this
      ensures |probed| <= 254 && probed == Handshake.UpTo(|probed|)
      ensures forall i :: 0 <= i < |probed| ==> !readEnd(i)
      ensures |probed| < 254 ==> readEnd(|probed|)
    {
      probed := [];
      var finish := false;
      ResetSubAddr();
      while !finish
        invariant |probed| <= Handshake.LAST_ADDR && probed == Handshake.UpTo(|probed|)
        invariant forall i :: 0 <= i < |probed| ==> !readEnd(i)
        invariant if finish then |probed| == Handshake.LAST_ADDR else subIp == |probed| + 1 <= Handshake.LAST_ADDR
        decreases Handshake.LAST_ADDR - |probed|, !finish
      {
        if readEnd(|probed|) {
          break;
        }
        finish := PrepareSubAddr();
        assert Handshake.UpTo(|probed|) + [addrTo] == Handshake.UpTo(|probed| + 1);
        probed := probed + [addrTo];
      }
    }
  }
}
