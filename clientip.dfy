/** How index.js decides which IP address a request comes from: the `x-client-ip` header,
    else `x-forwarded-for`, else the socket's peer address, with one leading IPv4-mapped
    IPv6 prefix `::ffff:` removed. */
module ClientIp {
  import opened Wrappers
  import opened JsValues

  /** What a request says about its origin. A header is None when the request lacks it. */
  datatype Caller = Caller(xClientIp: Option<string>, xForwardedFor: Option<string>, remoteAddress: string)

  /** The prefix an IPv4 peer address carries on a dual-stack socket. */
  const MappedPrefix: string := "::ffff:"

  /** The address before prefix stripping, chosen by JavaScript's `||`: an empty header
      counts as absent. */
  function RawAddress(c: Caller): (raw: string)
    ensures PresentText(c.xClientIp) ==> raw == c.xClientIp.value
    ensures !PresentText(c.xClientIp) && PresentText(c.xForwardedFor) ==> raw == c.xForwardedFor.value
    ensures !PresentText(c.xClientIp) && !PresentText(c.xForwardedFor) ==> raw == c.remoteAddress
  {
    if PresentText(c.xClientIp) then c.xClientIp.value
    else if PresentText(c.xForwardedFor) then c.xForwardedFor.value
    else c.remoteAddress
  }

  /** `s.replace(/^::ffff:/, "")`: the prefix is removed once, and only at the start. */
  function StripMappedPrefix(s: string): (r: string)
    ensures r == s || MappedPrefix + r == s
    ensures MappedPrefix <= s <==> r != s
  {
    if MappedPrefix <= s then s[|MappedPrefix|..] else s
  }

  /** The caller's IP as index.js:39-41 (and its copies) compute it. */
  function ResolveIp(c: Caller): (ip: string)
    ensures ip == RawAddress(c) || MappedPrefix + ip == RawAddress(c)
    ensures MappedPrefix <= RawAddress(c) <==> ip != RawAddress(c)
  {
    StripMappedPrefix(RawAddress(c))
  }

  /** Only one prefix is removed: whatever follows it is kept verbatim, even when it starts
      with the prefix again. */
  lemma StripRemovesExactlyOnePrefix(rest: string)
    ensures StripMappedPrefix(MappedPrefix + rest) == rest
    ensures StripMappedPrefix(MappedPrefix + MappedPrefix + rest) == MappedPrefix + rest
  {
    assert (MappedPrefix + rest)[..|MappedPrefix|] == MappedPrefix;
    assert (MappedPrefix + MappedPrefix + rest)[..|MappedPrefix|] == MappedPrefix;
    assert MappedPrefix + MappedPrefix + rest == MappedPrefix + (MappedPrefix + rest);
  }

  /** A non-empty `x-client-ip` header decides alone: the other two sources are ignored. */
  lemma ClientHeaderWins(h: string, f: Option<string>, f': Option<string>, a: string, a': string)
    requires h != ""
    ensures ResolveIp(Caller(Some(h), f, a)) == ResolveIp(Caller(Some(h), f', a'))
    ensures ResolveIp(Caller(Some(h), f, a)) == StripMappedPrefix(h)
  {
  }

  /** An empty or missing `x-client-ip` defers to `x-forwarded-for`, and failing that to the
      socket address. */
  lemma FallbackOrder(f: string, a: string)
    ensures f != "" ==> ResolveIp(Caller(Some(""), Some(f), a)) == ResolveIp(Caller(None, Some(f), a)) == StripMappedPrefix(f)
    ensures ResolveIp(Caller(None, Some(""), a)) == ResolveIp(Caller(None, None, a)) == StripMappedPrefix(a)
  {
  }

  /** A dual-stack peer `::ffff:a.b.c.d` resolves to the plain IPv4 text `a.b.c.d`, and a
      peer address without the prefix is kept as it is. */
  lemma MappedPeerResolvesToIpv4(v4: string)
    requires !(MappedPrefix <= v4)
    ensures ResolveIp(Caller(None, None, MappedPrefix + v4)) == v4
    ensures ResolveIp(Caller(None, None, v4)) == v4
  {
    StripRemovesExactlyOnePrefix(v4);
  }
}
