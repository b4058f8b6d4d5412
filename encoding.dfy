/** The feature of a host-stash suggestion (drone/storage/encoding.go): the hosts' encodings, concatenated. */
module Encoding {
  import opened Bytes
  import opened Wrappers
  import opened Messages

  /** The concatenated encodings of `hosts`, or None when the encoder fails on one of them. */
  function Encoded(hosts: seq<HostStash>, marshal: HostStash -> Option<Bytes>): Option<Bytes>
    decreases |hosts|
  {
    if hosts == [] then Some([])
    else
      match Encoded(hosts[..|hosts| - 1], marshal)
      case None => None
      case Some(prefix) =>
        match marshal(hosts[|hosts| - 1])
        case None => None
        case Some(data) => Some(prefix + data)
  }

  /** One more host extends the output by exactly that host's encoding. */
  lemma EncodedAppend(hosts: seq<HostStash>, h: HostStash, marshal: HostStash -> Option<Bytes>)
    ensures Encoded(hosts + [h], marshal).Some? <==> Encoded(hosts, marshal).Some? && marshal(h).Some?
    ensures Encoded(hosts + [h], marshal).Some? ==>
      Encoded(hosts + [h], marshal).value == Encoded(hosts, marshal).value + marshal(h).value
  {
    assert (hosts + [h])[..|hosts + [h]| - 1] == hosts;
  }

  /** The output for a concatenated list is the concatenation of the outputs, so the output for a list is a
      prefix of the output for any extension of it. */
  lemma {:induction false} EncodedConcat(a: seq<HostStash>, b: seq<HostStash>, marshal: HostStash -> Option<Bytes>)
    ensures Encoded(a + b, marshal).Some? <==> Encoded(a, marshal).Some? && Encoded(b, marshal).Some?
    ensures Encoded(a + b, marshal).Some? ==>
      Encoded(a + b, marshal).value == Encoded(a, marshal).value + Encoded(b, marshal).value
    decreases |b|
  {
    if b == [] {
      assert a + b == a;
    } else {
      var b' := b[..|b| - 1];
      var h := b[|b| - 1];
      assert b == b' + [h];
      assert a + b == (a + b') + [h];
      EncodedConcat(a, b', marshal);
      EncodedAppend(a + b', h, marshal);
      EncodedAppend(b', h, marshal);
      if Encoded(a + b, marshal).Some? {
        var x, y, z := Encoded(a, marshal).value, Encoded(b', marshal).value, marshal(h).value;
        assert x + y + z == x + (y + z);
      }
    }
  }

  /** The encoding fails exactly when the encoder fails on some host. */
  lemma {:induction false} EncodedFails(hosts: seq<HostStash>, marshal: HostStash -> Option<Bytes>)
    ensures Encoded(hosts, marshal).None? <==> exists k :: 0 <= k < |hosts| && marshal(hosts[k]).None?
    decreases |hosts|
  {
    if hosts != [] {
      var init := hosts[..|hosts| - 1];
      EncodedFails(init, marshal);
      if Encoded(init, marshal).None? {
        var k :| 0 <= k < |init| && marshal(init[k]).None?;
        assert hosts[k] == init[k];
      }
      if exists k :: 0 <= k < |hosts| && marshal(hosts[k]).None? {
        var k :| 0 <= k < |hosts| && marshal(hosts[k]).None?;
        if k < |init| {
          assert init[k] == hosts[k];
        }
      }
    }
  }

  /** HashHostStash. None stands for the panic on an encoder failure: no partial output is returned. */
  method HashHostStash(hosts: seq<HostStash>, marshal: HostStash -> Option<Bytes>) returns (r: Option<Bytes>)
    ensures r == Encoded(hosts, marshal)
    ensures hosts == [] ==> r == Some([])
  {
    var hostData: Bytes := [];
    var i := 0;
    while i < |hosts|
      invariant 0 <= i <= |hosts|
      invariant Encoded(hosts[..i], marshal) == Some(hostData)
    {
      assert hosts[..i + 1] == hosts[..i] + [hosts[i]];
      EncodedAppend(hosts[..i], hosts[i], marshal);
      var data := marshal(hosts[i]);
      if data.None? {
        EncodedConcat(hosts[..i + 1], hosts[i + 1..], marshal);
        assert hosts[..i + 1] + hosts[i + 1..] == hosts;
        return None;
      }
      hostData := hostData + data.value;
      i := i + 1;
    }
    assert hosts[..i] == hosts;
    return Some(hostData);
  }
}
