/**
 * The two request helpers of the verification controller: the client
 * address (`getClientIp`) and the device class of a user agent
 * (`detectDevice`).
 */
module VerificationController {
  import opened Wrappers
  import opened JsStrings
  import opened ClientRequest

  /**
   * `getClientIp`: the first forwarded address when the header is truthy,
   * else `req.ip || req.socket.remoteAddress` (which is `undefined` only when
   * `req.ip` is falsy and there is no remote address).
   */
  function GetClientIp(req: Request): (r: Lookup)
    ensures r == TypeError <==> req.forwarded == HeaderList([])
    ensures r == Missing <==> !HeaderPresent(req.forwarded) && !Truthy(req.ip) && req.remoteAddress.None?
  {
    if HeaderPresent(req.forwarded) then ForwardedAddress(req.forwarded)
    else if Truthy(req.ip) then Found(req.ip.value)
    else if req.remoteAddress.Some? then Found(req.remoteAddress.value)
    else Missing
  }

  /** Without a forwarded header, a truthy `req.ip` wins over the socket's address, which is the fallback. */
  lemma ClientIpFallback(req: Request)
    requires !HeaderPresent(req.forwarded)
    ensures Truthy(req.ip) ==> GetClientIp(req) == Found(req.ip.value)
    ensures !Truthy(req.ip) && req.remoteAddress.Some? ==> GetClientIp(req) == Found(req.remoteAddress.value)
  {
  }

  /** A string header decides the address: the text before its first comma (position `j`), trimmed, whatever `req.ip` says. */
  lemma ClientIpFromForwardedString(req: Request, j: int)
    requires req.forwarded.HeaderValue? && req.forwarded.value != ""
    requires var v := req.forwarded.value; 0 <= j <= |v| && ',' !in v[..j] && (j == |v| || v[j] == ',')
    ensures GetClientIp(req) == Found(Trim(req.forwarded.value[..j]))
  {
    ForwardedStringFirstHop(req.forwarded.value, j);
  }

  /** The device classes `detectDevice` reports (`'mobile'`, `'tablet'`, `'desktop'`). */
  datatype Device = Mobile | Tablet | Desktop

  /** The user agent, lower-cased, holds a mobile keyword somewhere. */
  ghost predicate HasMobileKeyword(ua: string) {
    exists i :: OccursAt(ua, "mobile", i) || OccursAt(ua, "android", i) || OccursAt(ua, "iphone", i)
  }

  /** The user agent, lower-cased, holds a tablet keyword somewhere. */
  ghost predicate HasTabletKeyword(ua: string) {
    exists i :: OccursAt(ua, "tablet", i) || OccursAt(ua, "ipad", i)
  }

  /**
   * `detectDevice`: `undefined` for an absent or empty user agent; otherwise
   * the lower-cased agent is searched for the mobile keywords first, then for
   * the tablet keywords, and anything else is a desktop.
   */
  function DetectDevice(userAgent: Option<string>): (d: Option<Device>)
    ensures d.None? <==> !Truthy(userAgent)
  {
    if !Truthy(userAgent) then None
    else
      var ua := ToLowerAscii(userAgent.value);
      if Contains(ua, "mobile") || Contains(ua, "android") || Contains(ua, "iphone") then Some(Mobile)
      else if Contains(ua, "tablet") || Contains(ua, "ipad") then Some(Tablet)
      else Some(Desktop)
  }

  /**
   * The classification of a non-empty user agent in terms of where keywords
   * occur: mobile exactly when a mobile keyword occurs, tablet exactly when
   * no mobile keyword but a tablet keyword occurs, desktop otherwise.
   */
  lemma DetectDeviceClassifies(ua: string)
    requires ua != ""
    ensures DetectDevice(Some(ua)) == Some(Mobile) <==> HasMobileKeyword(ToLowerAscii(ua))
    ensures DetectDevice(Some(ua)) == Some(Tablet) <==>
      !HasMobileKeyword(ToLowerAscii(ua)) && HasTabletKeyword(ToLowerAscii(ua))
    ensures DetectDevice(Some(ua)) == Some(Desktop) <==>
      !HasMobileKeyword(ToLowerAscii(ua)) && !HasTabletKeyword(ToLowerAscii(ua))
  {
    var l := ToLowerAscii(ua);
    ContainsIff(l, "mobile");
    ContainsIff(l, "android");
    ContainsIff(l, "iphone");
    ContainsIff(l, "tablet");
    ContainsIff(l, "ipad");
    if HasMobileKeyword(l) {
      var i :| OccursAt(l, "mobile", i) || OccursAt(l, "android", i) || OccursAt(l, "iphone", i);
    }
    if HasTabletKeyword(l) {
      var i :| OccursAt(l, "tablet", i) || OccursAt(l, "ipad", i);
    }
  }

  /** The classification ignores ASCII letter case: an agent and its lower-cased form are classified alike. */
  lemma DetectDeviceCaseInsensitive(ua: string)
    ensures DetectDevice(Some(ToLowerAscii(ua))) == DetectDevice(Some(ua))
  {
    ToLowerAsciiIdempotent(ua);
  }

  /** A mobile agent stays mobile whatever text surrounds it. */
  lemma MobileSurvivesExtension(ua: string, before: string, after: string)
    requires DetectDevice(Some(ua)) == Some(Mobile)
    ensures DetectDevice(Some(before + ua + after)) == Some(Mobile)
  {
    var l := ToLowerAscii(ua);
    ToLowerAsciiConcat(before + ua, after);
    ToLowerAsciiConcat(before, ua);
    assert ToLowerAscii(before + ua + after) == ToLowerAscii(before) + l + ToLowerAscii(after);
    if Contains(l, "mobile") {
      ContainsExtend(l, "mobile", ToLowerAscii(before), ToLowerAscii(after));
    } else if Contains(l, "android") {
      ContainsExtend(l, "android", ToLowerAscii(before), ToLowerAscii(after));
    } else {
      ContainsExtend(l, "iphone", ToLowerAscii(before), ToLowerAscii(after));
    }
  }

  /** Mobile keywords win over tablet keywords: an "Android Tablet" agent is a mobile. */
  lemma AndroidTabletIsMobile()
    ensures DetectDevice(Some("Android Tablet")) == Some(Mobile)
  {
    assert ToLowerAscii("Android") == "android";
    assert "Android Tablet" == [] + "Android" + " Tablet";
    MobileSurvivesExtension("Android", [], " Tablet");
  }
}
