/**
 * A cluster member with an `int` ring token
 * (ru.selena.net.model.impl.HostWithIntegerToken and its factory).
 */
module Hosts {
  import opened JavaTypes
  import NumberUtils

  /** A host is immutable once built; its `equals` compares all three fields, as `==` does. */
  datatype Host = Host(host: seq<char>, port: int32, token: int32)

  /** The constructor: the host name must be non-null (`None` is `null`) and non-empty. */
  function NewHost(host: Option<seq<char>>, port: int32, token: int32): (r: Result<Host>)
    ensures r.Ok? <==> host.Some? && host.value != []
    ensures r.Err? ==> r.error == IllegalArgument
    ensures r.Ok? ==> r.value.host == host.value && r.value.port == port && r.value.token == token
  {
    if host.None? || host.value == [] then Err(IllegalArgument)
    else Ok(Host(host.value, port, token))
  }

  /** A host as the constructor admits it. */
  predicate Valid(h: Host)
  {
    h.host != []
  }

  /** `getToken()`: the four big-endian bytes of the token. */
  function GetToken(h: Host): (r: seq<byte>)
    ensures |r| == 4
  {
    NumberUtils.IntToBytes(h.token)
  }

  /** `HostWithIntegerTokenFactory.createHost`: the token is the `int` in the first four bytes. */
  function CreateHost(host: Option<seq<char>>, port: int32, token: seq<byte>): (r: Result<Host>)
  {
    var t :- NumberUtils.IntAt(token, 0);
    NewHost(host, port, t)
  }

  /** `hashCode()`: `17`, then the host name's, the port's and the token's hash, each by `result += 31 * result + h`. */
  function Hash(h: Host): int32
  {
    Combine(Combine(Combine(17, StringHash(h.host)), h.port), h.token)
  }

  /** `equals`: host name, port and token all equal. */
  predicate Equals(h: Host, other: Host)
  {
    h.host == other.host && h.port == other.port && h.token == other.token
  }

  /** The factory fails exactly for a null or empty host name or fewer than four token bytes, always with IllegalArgumentException. */
  lemma CreateHostFails(host: Option<seq<char>>, port: int32, token: seq<byte>)
    ensures CreateHost(host, port, token).Ok? <==> host.Some? && host.value != [] && |token| >= 4
    ensures CreateHost(host, port, token).Err? ==> CreateHost(host, port, token).error == IllegalArgument
  {
    NumberUtils.IntAtTooShort(token, 0);
  }

  /** Round trip: the factory rebuilds a host from its name, port and `getToken()`. */
  lemma CreateHostRoundTrip(h: Host)
    requires Valid(h)
    ensures CreateHost(Some(h.host), h.port, GetToken(h)) == Ok(h)
  {
    NumberUtils.IntRoundTrip(h.token);
  }

  /** Round trip the other way: a host built from four token bytes gives back those bytes. */
  lemma TokenBytesRoundTrip(host: seq<char>, port: int32, token: seq<byte>)
    requires host != [] && |token| == 4
    ensures CreateHost(Some(host), port, token).Ok?
    ensures GetToken(CreateHost(Some(host), port, token).value) == token
  {
    NumberUtils.BytesRoundTrip(token);
  }

  /** Token bytes after the fourth are ignored: tokens agreeing on their first four bytes give the same host. */
  lemma CreateHostIgnoresTail(host: Option<seq<char>>, port: int32, token: seq<byte>, tail: seq<byte>)
    requires |token| >= 4
    ensures CreateHost(host, port, token) == CreateHost(host, port, token[..4] + tail)
  {
    var other := token[..4] + tail;
    NumberUtils.IntAtTooShort(token, 0);
    NumberUtils.IntAtTooShort(other, 0);
    NumberUtils.IntAtLocal(token, 0);
    NumberUtils.IntAtLocal(other, 0);
    assert other[0..4] == token[0..4];
  }

  /** `equals` is `==`, so equal hosts hash alike. */
  lemma EqualsIsIdentity(h: Host, other: Host)
    ensures Equals(h, other) <==> h == other
    ensures Equals(h, other) ==> Hash(h) == Hash(other)
  {
  }
}
