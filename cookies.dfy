/**
 * frontend/src/lib/cookies.ts: the `auth_token` cookie. Writing the cookie
 * builds a `Set-Cookie`-style string (section 4.1.1 of RFC 6265) and assigns
 * it to `document.cookie`; reading it splits `document.cookie` at `;` and
 * decodes the value of the first entry named `auth_token`.
 *
 * The browser behind `document.cookie` is modelled as a list of name/value
 * pairs in creation order: assigning a string stores one cookie as sections
 * 5.2 and 5.3 of RFC 6265 describe (name, value and Max-Age only), and
 * reading gives the pairs joined by "; " (section 5.4).
 */
module Cookies {
  import opened Strings
  import opened Uri

  const TokenCookieKey: string := "auth_token"

  /** Seven days, in seconds. */
  const DefaultMaxAge: int := 60 * 60 * 24 * 7

  // ---------------------------------------------------------------------------
  // Writing: buildCookieString
  // ---------------------------------------------------------------------------

  /** A `name=value` pair, as the template literals write them. */
  function Attribute(name: string, value: string): string
  {
    name + "=" + value
  }

  /** The attributes `buildCookieString` joins, `Secure` pushed last under https. */
  function CookieAttributes(value: string, maxAge: int, https: bool): seq<string>
  {
    [Attribute(TokenCookieKey, Encode(value))] + Options(maxAge, https)
  }

  /** The attributes after the name-value pair. */
  function Options(maxAge: int, https: bool): seq<string>
  {
    [PathAttribute, Attribute("max-age", IntToString(maxAge)), SameSiteAttribute]
      + (if https then [SecureAttribute] else [])
  }

  const PathAttribute: string := "path=/"
  const SameSiteAttribute: string := "SameSite=Lax"
  const SecureAttribute: string := "Secure"

  /** `buildCookieString(value, maxAge)` on a page whose protocol is https or not. */
  function BuildCookieString(value: string, maxAge: int, https: bool): string
  {
    Join(CookieAttributes(value, maxAge, https), "; ")
  }

  /**
   * What `clearTokenCookie` writes: `auth_token=; path=/; max-age=0;
   * SameSite=Lax`, and the same followed by `; Secure`.
   */
  function ClearString(secure: bool): string
  {
    Join([Attribute(TokenCookieKey, ""), PathAttribute, Attribute("max-age", "0"), SameSiteAttribute]
           + (if secure then [SecureAttribute] else []), "; ")
  }

  // ---------------------------------------------------------------------------
  // The browser's side of document.cookie (RFC 6265, sections 5.2 to 5.4)
  // ---------------------------------------------------------------------------

  /** A stored cookie. */
  datatype Cookie = Cookie(name: string, value: string)

  /** The WSP characters section 5.2 strips around names and values. */
  predicate IsWsp(c: char)
  {
    c == ' ' || c == '\t'
  }

  function StripWsp(s: string): string
    decreases |s|
  {
    if s != [] && IsWsp(s[0]) then StripWsp(s[1..])
    else if s != [] && IsWsp(s[|s| - 1]) then StripWsp(s[..|s| - 1])
    else s
  }

  /** The Max-Age value of section 5.2.2: an optional "-" and at least one digit. */
  function ParseDelta(v: string): Option<int>
  {
    if |v| > 1 && v[0] == '-' && AllDigits(v[1..]) then Some(-(DigitsValue(v[1..]) as int))
    else if v != [] && AllDigits(v) then Some(DigitsValue(v))
    else None
  }

  /** The Max-Age an attribute carries, if it is a well-formed Max-Age attribute. */
  function AttributeMaxAge(a: string): Option<int>
  {
    var e := IndexOf(a, '=');
    if e == |a| || LowerAscii(StripWsp(a[..e])) != "max-age" then None
    else ParseDelta(StripWsp(a[e + 1..]))
  }

  /** The last well-formed Max-Age attribute wins (section 5.3, step 3). */
  function LastMaxAge(attrs: seq<string>): Option<int>
    decreases |attrs|
  {
    if attrs == [] then None
    else match AttributeMaxAge(attrs[|attrs| - 1])
      case Some(d) => Some(d)
      case None => LastMaxAge(attrs[..|attrs| - 1])
  }

  datatype SetCookie = SetCookie(name: string, value: string, maxAge: Option<int>)

  /**
   * Section 5.2: the name-value pair is everything before the first `;`;
   * without a `=` or with an empty name the string is ignored.
   */
  function ParseSetCookie(s: string): Option<SetCookie>
  {
    var k := IndexOf(s, ';');
    ParsePair(s[..k], if k < |s| then Split(s[k + 1..], ';') else [])
  }

  /** The name-value pair, given the attributes that follow it. */
  function ParsePair(pair: string, attrs: seq<string>): Option<SetCookie>
  {
    var e := IndexOf(pair, '=');
    if e == |pair| then None
    else
      var name := StripWsp(pair[..e]);
      if name == [] then None
      else Some(SetCookie(name, StripWsp(pair[e + 1..]), LastMaxAge(attrs)))
  }

  /** A cookie of an existing name replaces it in place; a new one goes last. */
  function PutCookie(jar: seq<Cookie>, name: string, value: string): seq<Cookie>
    decreases |jar|
  {
    if jar == [] then [Cookie(name, value)]
    else if jar[0].name == name then [Cookie(name, value)] + jar[1..]
    else [jar[0]] + PutCookie(jar[1..], name, value)
  }

  /** An already expired cookie removes the stored one of its name. */
  function RemoveCookie(jar: seq<Cookie>, name: string): seq<Cookie>
    decreases |jar|
  {
    if jar == [] then []
    else (if jar[0].name == name then [] else [jar[0]]) + RemoveCookie(jar[1..], name)
  }

  /** Assigning `s` to `document.cookie`. */
  function StoreCookie(jar: seq<Cookie>, s: string): seq<Cookie>
  {
    match ParseSetCookie(s)
    case None => jar
    case Some(c) =>
      if c.maxAge.Some? && c.maxAge.value <= 0 then RemoveCookie(jar, c.name)
      else PutCookie(jar, c.name, c.value)
  }

  function Pairs(jar: seq<Cookie>): (r: seq<string>)
    ensures |r| == |jar|
  {
    seq(|jar|, i requires 0 <= i < |jar| => Attribute(jar[i].name, jar[i].value))
  }

  /** Reading `document.cookie`. */
  function CookieHeader(jar: seq<Cookie>): string
  {
    Join(Pairs(jar), "; ")
  }

  /** What the store keeps: names non-empty, free of `;` and `=`; values free of `;`. */
  predicate WellFormedJar(jar: seq<Cookie>)
  {
    forall i :: 0 <= i < |jar| ==>
      jar[i].name != [] && ';' !in jar[i].name && '=' !in jar[i].name && ';' !in jar[i].value
  }

  /**
   * No other cookie is named `auth_token` once its leading whitespace is
   * trimmed (a non-WSP space such as U+00A0 survives the store's stripping but
   * not JavaScript's `trim`).
   */
  predicate NoLookalike(jar: seq<Cookie>)
  {
    forall i :: 0 <= i < |jar| && jar[i].name != TokenCookieKey ==> TrimStart(jar[i].name) != TokenCookieKey
  }

  // ---------------------------------------------------------------------------
  // Reading: getTokenCookie
  // ---------------------------------------------------------------------------

  /** The result of `getTokenCookie`: a string, null, or a thrown URIError. */
  datatype TokenRead = Token(value: string) | NoToken | DecodeFailure

  /** `name` of `const [name, ...rest] = cookie.trim().split("=")`. */
  function EntryName(entry: string): string
  {
    Split(Trim(entry), '=')[0]
  }

  /** `rest.join("=")`: everything after the first `=`. */
  function EntryValue(entry: string): string
  {
    Join(Split(Trim(entry), '=')[1..], "=")
  }

  function DecodeValue(v: string): TokenRead
  {
    match Decode(v)
    case Some(t) => Token(t)
    case None => DecodeFailure
  }

  /** The decoded value of the first entry named `auth_token`; NoToken when none is. */
  function FindToken(entries: seq<string>): TokenRead
    decreases |entries|
  {
    if entries == [] then NoToken
    else if EntryName(entries[0]) == TokenCookieKey then DecodeValue(EntryValue(entries[0]))
    else FindToken(entries[1..])
  }

  // ---------------------------------------------------------------------------
  // The page
  // ---------------------------------------------------------------------------

  /**
   * A page: whether `document` exists, whether the protocol is https, and
   * the cookies the browser holds for it.
   */
  class Page {
    const isBrowser: bool
    const https: bool
    var jar: seq<Cookie>

    constructor (isBrowser: bool, https: bool, jar: seq<Cookie>)
      ensures this.isBrowser == isBrowser && this.https == https && this.jar == jar
    {
      this.isBrowser := isBrowser;
      this.https := https;
      this.jar := jar;
    }

    /** `setTokenCookie(token, maxAge)`: nothing outside a browser; a week by default. */
    method SetTokenCookie(token: string, maxAge: int := DefaultMaxAge)
      modifies this
      ensures jar == (if isBrowser then StoreCookie(old(jar), BuildCookieString(token, maxAge, https)) else old(jar))
    {
      if !isBrowser {
        return;
      }
      jar := StoreCookie(jar, BuildCookieString(token, maxAge, https));
    }

    /** `clearTokenCookie()`: one expiring write, and a second with `Secure` under https. */
    method ClearTokenCookie()
      modifies this
      ensures jar == (if !isBrowser then old(jar)
                      else if https then StoreCookie(StoreCookie(old(jar), ClearString(false)), ClearString(true))
                      else StoreCookie(old(jar), ClearString(false)))
    {
      if !isBrowser {
        return;
      }
      jar := StoreCookie(jar, ClearString(false));
      if https {
        jar := StoreCookie(jar, ClearString(true));
      }
    }

    /** `getTokenCookie()`: the loop over the `;`-separated entries, returning at the first match. */
    method GetTokenCookie() returns (r: TokenRead)
      ensures r == (if isBrowser then FindToken(Split(CookieHeader(jar), ';')) else NoToken)
    {
      if !isBrowser {
        return NoToken;
      }
      var cookies := Split(CookieHeader(jar), ';');
      var i := 0;
      while i < |cookies|
        invariant 0 <= i <= |cookies|
        invariant FindToken(cookies[i..]) == FindToken(cookies)
      {
        var parts := Split(Trim(cookies[i]), '=');
        if parts[0] == TokenCookieKey {
          var decoded := Decode(Join(parts[1..], "="));
          return if decoded.Some? then Token(decoded.value) else DecodeFailure;
        }
        assert cookies[i..][1..] == cookies[i + 1..];
        i := i + 1;
      }
      return NoToken;
    }
  }

  // ---------------------------------------------------------------------------
  // Properties of reading
  // ---------------------------------------------------------------------------

  /** The first entry named `auth_token` decides the result. */
  lemma {:induction false} FindTokenFirst(entries: seq<string>, j: nat)
    requires j < |entries| && EntryName(entries[j]) == TokenCookieKey
    requires forall i :: 0 <= i < j ==> EntryName(entries[i]) != TokenCookieKey
    ensures FindToken(entries) == DecodeValue(EntryValue(entries[j]))
    decreases j
  {
    if j > 0 {
      FindTokenFirst(entries[1..], j - 1);
    }
  }

  /** Without an entry named `auth_token` the result is null. */
  lemma {:induction false} FindTokenNone(entries: seq<string>)
    requires forall i :: 0 <= i < |entries| ==> EntryName(entries[i]) != TokenCookieKey
    ensures FindToken(entries) == NoToken
    decreases |entries|
  {
    if entries != [] {
      FindTokenNone(entries[1..]);
    }
  }

  /**
   * An entry `n=v` behind leading whitespace: its name is `n` without
   * leading whitespace, and its value is all of `v` up to trailing
   * whitespace, `=` characters included.
   */
  lemma {:induction false} EntryParts(pre: string, n: string, v: string)
    requires forall k :: 0 <= k < |pre| ==> IsJsSpace(pre[k])
    requires '=' !in n
    ensures EntryName(pre + Attribute(n, v)) == TrimStart(n)
    ensures EntryValue(pre + Attribute(n, v)) == TrimEnd(v)
  {
    var e := pre + Attribute(n, v);
    assert e == (pre + n) + ("=" + v);
    TrimStartAppend(pre + n, "=" + v);
    TrimStartSpaces(pre, n);
    var a := TrimStart(n);
    TrimStartShape(n);
    assert '=' !in a by {
      forall k | 0 <= k < |a| ensures a[k] != '=' {
        assert a[k] == n[|n| - |a| + k];
      }
    }
    assert TrimStart(e) == (a + "=") + v;
    TrimEndAppend(a + "=", v);
    assert Trim(e) == a + ['='] + TrimEnd(v);
    SplitCons(a, '=', TrimEnd(v));
  }

  lemma {:induction false} TrimStartSpaces(pre: string, n: string)
    requires forall k :: 0 <= k < |pre| ==> IsJsSpace(pre[k])
    ensures TrimStart(pre + n) == TrimStart(n)
    decreases |pre|
  {
    if pre == [] {
      assert pre + n == n;
    } else {
      assert (pre + n)[0] == pre[0];
      assert (pre + n)[1..] == pre[1..] + n;
      TrimStartSpaces(pre[1..], n);
    }
  }

  /** `=` characters inside a value are kept: the value is everything after the first `=`. */
  lemma {:induction false} ValueKeepsEquals(w: string)
    requires w != [] ==> !IsJsSpace(w[|w| - 1])
    ensures EntryName(Attribute(TokenCookieKey, w)) == TokenCookieKey
    ensures EntryValue(Attribute(TokenCookieKey, w)) == w
  {
    var k := TokenCookieKey;
    assert EntryName(Attribute(k, w)) == TrimStart(k) && EntryValue(Attribute(k, w)) == TrimEnd(w) by {
      assert "" + Attribute(k, w) == Attribute(k, w);
      EntryParts("", k, w);
    }
    assert TrimStart(k) == k by {
      KeyShape();
    }
    assert TrimEnd(w) == w;
  }

  /** Every character after the first prefixed with a space. */
  function Lead(xs: seq<string>): (r: seq<string>)
    ensures |r| == |xs|
  {
    seq(|xs|, i requires 0 <= i < |xs| => " " + xs[i])
  }

  /** Splitting a "; "-join at `;` leaves a space in front of every piece but the first. */
  lemma {:induction false} JoinLead(xs: seq<string>)
    requires xs != []
    ensures " " + Join(xs, "; ") == Join(Lead(xs), ";")
    decreases |xs|
  {
    if |xs| > 1 {
      JoinLead(xs[1..]);
      assert Lead(xs)[1..] == Lead(xs[1..]);
      assert Lead(xs)[0] == " " + xs[0];
    }
  }

  lemma {:induction false} SplitSpacedJoin(xs: seq<string>)
    requires xs != [] && forall i :: 0 <= i < |xs| ==> ';' !in xs[i]
    ensures Split(Join(xs, "; "), ';') == [xs[0]] + Lead(xs[1..])
  {
    if |xs| == 1 {
      SplitNone(xs[0], ';');
    } else {
      var rest := xs[1..];
      var l := Lead(rest);
      assert Split(Join(l, ";"), ';') == l by {
        forall i | 0 <= i < |l| ensures ';' !in l[i] {
          assert l[i] == " " + rest[i];
        }
        SplitJoin(l, ';');
      }
      assert Join(xs, "; ") == xs[0] + [';'] + Join(l, ";") by {
        JoinLead(rest);
      }
      SplitCons(xs[0], ';', Join(l, ";"));
    }
  }

  /** The entries `getTokenCookie` walks: one per stored cookie, at least one. */
  function Entries(jar: seq<Cookie>): seq<string>
  {
    Split(CookieHeader(jar), ';')
  }

  lemma {:induction false} EntriesShape(jar: seq<Cookie>)
    requires WellFormedJar(jar) && jar != []
    ensures |Entries(jar)| == |jar|
    ensures Entries(jar)[0] == Pairs(jar)[0]
    ensures forall k :: 0 < k < |jar| ==> Entries(jar)[k] == " " + Pairs(jar)[k]
  {
    var ps := Pairs(jar);
    forall k | 0 <= k < |ps| ensures ';' !in ps[k] {
      assert ps[k] == jar[k].name + "=" + jar[k].value;
    }
    SplitSpacedJoin(ps);
    var es := Entries(jar);
    forall k | 0 < k < |jar| ensures es[k] == " " + ps[k] {
      assert es[k] == Lead(ps[1..])[k - 1];
    }
  }

  /** The i-th entry carries the i-th cookie's name and value. */
  lemma {:induction false} EntriesOfJar(jar: seq<Cookie>, i: nat)
    requires WellFormedJar(jar) && i < |jar|
    ensures |Entries(jar)| == |jar|
    ensures EntryName(Entries(jar)[i]) == TrimStart(jar[i].name)
    ensures EntryValue(Entries(jar)[i]) == TrimEnd(jar[i].value)
  {
    var n, v := jar[i].name, jar[i].value;
    var pre := if i == 0 then "" else " ";
    assert Entries(jar)[i] == pre + Attribute(n, v) by {
      EntriesShape(jar);
      assert Pairs(jar)[i] == Attribute(n, v);
      if i == 0 {
        assert pre + Attribute(n, v) == Attribute(n, v);
      }
    }
    assert |Entries(jar)| == |jar| by {
      EntriesShape(jar);
    }
    EntryParts(pre, n, v);
  }

  /** An empty jar reads as one empty entry, which is not `auth_token`. */
  lemma EmptyJarHasNoToken()
    ensures FindToken(Entries([])) == NoToken
  {
    assert CookieHeader([]) == "";
    assert Split("", ';') == [""];
    assert Trim("") == "";
    assert Split("", '=') == [""];
  }

  // ---------------------------------------------------------------------------
  // Properties of writing
  // ---------------------------------------------------------------------------

  /** A string without WSP at either end is not stripped. */
  lemma StripWspUnchanged(s: string)
    requires s != [] ==> !IsWsp(s[0]) && !IsWsp(s[|s| - 1])
    ensures StripWsp(s) == s
  {
  }

  /** `String(n)` for an integer: an optional "-" and digits, ending in a digit. */
  lemma {:induction false} IntToStringShape(m: int)
    ensures var d := IntToString(m);
      && d != [] && IsDigit(d[|d| - 1]) && (IsDigit(d[0]) || d[0] == '-')
      && forall k :: 0 <= k < |d| ==> IsDigit(d[k]) || d[k] == '-'
  {
    if m < 0 {
      var d := NatToString(-m);
      assert IntToString(m) == "-" + d;
      assert IsDigit(d[|d| - 1]);
    }
  }

  /** A Max-Age written as `String(n)` reads back as `n`. */
  lemma {:induction false} ParseDeltaOfInt(m: int)
    ensures ParseDelta(IntToString(m)) == Some(m)
  {
    if m < 0 {
      var d := NatToString(-m);
      NatToStringValue(-m);
      var s := "-" + d;
      assert IntToString(m) == s;
      assert s[1..] == d && s[0] == '-';
    } else {
      NatToStringValue(m);
      var d := NatToString(m);
      assert IsDigit(d[0]);
    }
  }

  /** An attribute ` name=val` as `buildCookieString` writes it. */
  lemma {:induction false} AttributeParts(name: string, val: string)
    requires name != [] && '=' !in name && !IsWsp(name[0]) && !IsWsp(name[|name| - 1])
    ensures AttributeMaxAge(" " + Attribute(name, val)) ==
      if LowerAscii(name) == "max-age" then ParseDelta(StripWsp(val)) else None
  {
    var a := " " + Attribute(name, val);
    var e := |name| + 1;
    assert IndexOf(a, '=') == e && e < |a| by {
      var pre := " " + name;
      assert a == pre + ("=" + val);
      assert '=' !in pre by {
        forall k | 0 <= k < |pre| ensures pre[k] != '=' {
          if k > 0 {
            assert pre[k] == name[k - 1];
          }
        }
      }
      IndexOfAppend(pre, "=" + val, '=');
    }
    assert StripWsp(a[..e]) == name && a[e + 1..] == val by {
      assert a[..e][1..] == name;
      StripWspUnchanged(name);
    }
  }

  lemma {:induction false} MaxAgeAttribute(m: int)
    ensures AttributeMaxAge(" " + Attribute("max-age", IntToString(m))) == Some(m)
  {
    var d := IntToString(m);
    var name := "max-age";
    assert LowerAscii(name) == "max-age" by {
      assert IsLower(name);
      LowerAsciiIsLower(name);
    }
    AttributeParts(name, d);
    assert StripWsp(d) == d by {
      IntToStringShape(m);
      StripWspUnchanged(d);
    }
    ParseDeltaOfInt(m);
  }

  /** Stripping only removes characters. */
  lemma {:induction false} StripWspFrom(s: string)
    ensures forall k :: 0 <= k < |StripWsp(s)| ==> StripWsp(s)[k] in s
    decreases |s|
  {
    if s != [] && IsWsp(s[0]) {
      StripWspFrom(s[1..]);
    } else if s != [] && IsWsp(s[|s| - 1]) {
      StripWspFrom(s[..|s| - 1]);
    }
  }

  /** Only an attribute holding a `-` can be named Max-Age. */
  lemma {:induction false} MaxAgeHasDash(a: string)
    ensures AttributeMaxAge(a).Some? ==> '-' in a
  {
    var e := IndexOf(a, '=');
    if e < |a| {
      var n := StripWsp(a[..e]);
      if LowerAscii(n) == "max-age" {
        assert LowerChar(n[3]) == '-';
        StripWspFrom(a[..e]);
        assert n[3] in a[..e];
      }
    }
  }

  /** The fixed attributes hold neither `;` nor `-`. */
  lemma FixedAttributes()
    ensures ';' !in PathAttribute && '-' !in PathAttribute
    ensures ';' !in SameSiteAttribute && '-' !in SameSiteAttribute
    ensures ';' !in SecureAttribute && '-' !in SecureAttribute
  {
  }

  /** A leading space adds neither `;` nor `-`. */
  lemma {:induction false} LeadChars(x: string)
    ensures (';' in " " + x) == (';' in x) && ('-' in " " + x) == ('-' in x)
  {
    assert (" " + x)[1..] == x;
    assert forall c :: c in " " + x <==> c == ' ' || c in x;
  }

  /** The fixed attributes are not Max-Age. */
  lemma {:induction false} OtherAttributes()
    ensures AttributeMaxAge(" " + PathAttribute) == None
    ensures AttributeMaxAge(" " + SameSiteAttribute) == None
    ensures AttributeMaxAge(" " + SecureAttribute) == None
  {
    FixedAttributes();
    LeadChars(PathAttribute);
    LeadChars(SameSiteAttribute);
    LeadChars(SecureAttribute);
    MaxAgeHasDash(" " + PathAttribute);
    MaxAgeHasDash(" " + SameSiteAttribute);
    MaxAgeHasDash(" " + SecureAttribute);
  }

  /** The facts about the literal name `auth_token` the proofs use. */
  lemma KeyShape()
    ensures var k := TokenCookieKey;
      && |k| == 10 && ';' !in k && '=' !in k
      && !IsWsp(k[0]) && !IsWsp(k[9]) && !IsJsSpace(k[0])
  {
  }

  /** An encoded value has no `;`, and neither starts nor ends with whitespace. */
  lemma {:induction false} EncodedShape(t: string)
    ensures ';' !in Encode(t)
    ensures Encode(t) != [] ==> var e := Encode(t);
      && !IsWsp(e[0]) && !IsWsp(e[|e| - 1]) && !IsJsSpace(e[|e| - 1])
  {
    EncodeHasNoSeparators(t);
  }

  /** The token pair splits at its first `=` into the key and the encoded value. */
  lemma {:induction false} TokenPairParts(t: string)
    ensures var p := Attribute(TokenCookieKey, Encode(t));
      && ';' !in p
      && IndexOf(p, '=') == |TokenCookieKey|
      && StripWsp(p[..|TokenCookieKey|]) == TokenCookieKey
      && StripWsp(p[|TokenCookieKey| + 1..]) == Encode(t)
  {
    var k, ev := TokenCookieKey, Encode(t);
    var p := Attribute(k, ev);
    KeyShape();
    EncodedShape(t);
    assert p == k + ("=" + ev);
    IndexOfAppend(k, "=" + ev, '=');
    assert p[..|k|] == k;
    StripWspUnchanged(k);
    assert p[|k| + 1..] == ev;
    StripWspUnchanged(ev);
  }

  /** The attributes after the pair, as the browser splits them. */
  lemma {:induction false} AttributesSplit(m: int, https: bool)
    ensures Split(" " + Join(Options(m, https), "; "), ';') == Lead(Options(m, https))
  {
    var rest := Options(m, https);
    JoinLead(rest);
    var l := Lead(rest);
    var d := IntToString(m);
    assert ';' !in Attribute("max-age", d) by {
      IntToStringShape(m);
      assert Attribute("max-age", d) == "max-age=" + d;
    }
    FixedAttributes();
    forall i | 0 <= i < |l| ensures ';' !in l[i] {
      assert l[i] == " " + rest[i];
      LeadChars(rest[i]);
    }
    SplitJoin(l, ';');
  }

  /** LastMaxAge over a list with one more attribute at its end. */
  lemma {:induction false} LastMaxAgeLeadSnoc(xs: seq<string>, y: string)
    ensures LastMaxAge(Lead(xs + [y])) ==
      if AttributeMaxAge(" " + y).Some? then AttributeMaxAge(" " + y) else LastMaxAge(Lead(xs))
  {
    var l := Lead(xs + [y]);
    assert l[|l| - 1] == " " + y;
    assert l[..|l| - 1] == Lead(xs);
  }

  /** The last Max-Age among the written attributes is the one written. */
  lemma {:induction false} AttributesMaxAge(m: int, https: bool)
    ensures LastMaxAge(Lead(Options(m, https))) == Some(m)
  {
    var x := Attribute("max-age", IntToString(m));
    var one, two, three := [PathAttribute], [PathAttribute, x], [PathAttribute, x, SameSiteAttribute];
    OtherAttributes();
    MaxAgeAttribute(m);
    assert one == [] + [PathAttribute];
    LastMaxAgeLeadSnoc([], PathAttribute);
    assert two == one + [x];
    LastMaxAgeLeadSnoc(one, x);
    assert three == two + [SameSiteAttribute];
    LastMaxAgeLeadSnoc(two, SameSiteAttribute);
    if https {
      LastMaxAgeLeadSnoc(three, SecureAttribute);
    } else {
      assert Options(m, https) == three;
    }
  }

  lemma {:induction false} DropSemicolon(j: string)
    ensures ("; " + j)[1..] == " " + j
  {
  }

  /** A pair without `;` followed by `"; " + j`: the attributes are `j` split at `;`, behind one space. */
  lemma {:induction false} ParseAfterPair(p: string, j: string)
    requires ';' !in p
    ensures ParseSetCookie(p + ("; " + j)) == ParsePair(p, Split(" " + j, ';'))
  {
    var s := p + ("; " + j);
    IndexOfAppend(p, "; " + j, ';');
    assert IndexOf("; " + j, ';') == 0;
    var k := |p|;
    assert s[..k] == p;
    assert s[k + 1..] == " " + j by {
      assert s[k..] == "; " + j;
      assert s[k + 1..] == s[k..][1..];
      DropSemicolon(j);
    }
  }

  /**
   * The browser reads back what `buildCookieString` writes: the name
   * `auth_token`, the encoded value and the Max-Age.
   */
  lemma {:induction false} ParseBuilt(t: string, m: int, https: bool)
    ensures ParseSetCookie(BuildCookieString(t, m, https)) == Some(SetCookie(TokenCookieKey, Encode(t), Some(m)))
  {
    var p := Attribute(TokenCookieKey, Encode(t));
    var j := Join(Options(m, https), "; ");
    assert BuildCookieString(t, m, https) == p + ("; " + j) by {
      var a := CookieAttributes(t, m, https);
      assert a[0] == p && a[1..] == Options(m, https);
    }
    TokenPairParts(t);
    ParseAfterPair(p, j);
    AttributesSplit(m, https);
    AttributesMaxAge(m, https);
  }

  /** Without a Max-Age argument the browser keeps the token for 604800 seconds. */
  lemma {:induction false} DefaultMaxAgeIsAWeek(t: string, https: bool)
    ensures ParseSetCookie(BuildCookieString(t, DefaultMaxAge, https)) ==
      Some(SetCookie(TokenCookieKey, Encode(t), Some(604800)))
  {
    ParseBuilt(t, DefaultMaxAge, https);
  }

  /** The clearing strings are `buildCookieString("", 0)` without and with `Secure`. */
  lemma {:induction false} ClearIsBuilt(secure: bool)
    ensures ClearString(secure) == BuildCookieString("", 0, secure)
  {
    assert Encode("") == "";
    assert IntToString(0) == "0";
    assert CookieAttributes("", 0, secure) ==
      [Attribute(TokenCookieKey, ""), PathAttribute, Attribute("max-age", "0"), SameSiteAttribute]
        + (if secure then [SecureAttribute] else []);
  }

  // ---------------------------------------------------------------------------
  // The jar after a write
  // ---------------------------------------------------------------------------

  /** PutCookie replaces the first cookie of the name, or appends one. */
  lemma {:induction false} PutShape(jar: seq<Cookie>, n: string, v: string) returns (j: nat)
    ensures j <= |jar|
    ensures forall i :: 0 <= i < j ==> jar[i].name != n
    ensures PutCookie(jar, n, v) == jar[..j] + [Cookie(n, v)] + (if j < |jar| then jar[j + 1..] else [])
    decreases |jar|
  {
    if jar == [] {
      j := 0;
    } else if jar[0].name == n {
      j := 0;
      assert jar[..0] == [];
    } else {
      var j' := PutShape(jar[1..], n, v);
      j := j' + 1;
      assert jar[..j] == [jar[0]] + jar[1..][..j'];
      if j < |jar| {
        assert jar[j + 1..] == jar[1..][j' + 1..];
      }
    }
  }

  /** RemoveCookie keeps exactly the cookies of other names, in order. */
  lemma {:induction false} RemoveShape(jar: seq<Cookie>, n: string)
    ensures forall i :: 0 <= i < |RemoveCookie(jar, n)| ==>
      RemoveCookie(jar, n)[i].name != n && RemoveCookie(jar, n)[i] in jar
    ensures forall i :: 0 <= i < |jar| && jar[i].name != n ==> jar[i] in RemoveCookie(jar, n)
    decreases |jar|
  {
    if jar != [] {
      RemoveShape(jar[1..], n);
      var r := RemoveCookie(jar, n);
      var r' := RemoveCookie(jar[1..], n);
      assert r == (if jar[0].name == n then [] else [jar[0]]) + r';
      forall i | 0 <= i < |jar| && jar[i].name != n ensures jar[i] in r {
        if i > 0 {
          assert jar[i] == jar[1..][i - 1];
        }
      }
    }
  }

  /** Properties of single cookies carry over to any jar made of stored cookies. */
  lemma {:induction false} SubJar(jar: seq<Cookie>, jar': seq<Cookie>)
    requires forall i :: 0 <= i < |jar'| ==> jar'[i] in jar
    requires WellFormedJar(jar) && NoLookalike(jar)
    ensures WellFormedJar(jar') && NoLookalike(jar')
  {
    forall i | 0 <= i < |jar'|
      ensures var c := jar'[i];
        && c.name != [] && ';' !in c.name && '=' !in c.name && ';' !in c.value
        && (c.name != TokenCookieKey ==> TrimStart(c.name) != TokenCookieKey)
    {
      var k :| 0 <= k < |jar| && jar[k] == jar'[i];
    }
  }

  /** Writing the token under a positive Max-Age stores its encoding under `auth_token`. */
  lemma {:induction false} SetStoresToken(jar: seq<Cookie>, t: string, m: int, https: bool)
    ensures StoreCookie(jar, BuildCookieString(t, m, https)) ==
      if m <= 0 then RemoveCookie(jar, TokenCookieKey) else PutCookie(jar, TokenCookieKey, Encode(t))
  {
    ParseBuilt(t, m, https);
  }

  /** Putting a `;`-free value under `auth_token` keeps the jar well formed. */
  lemma {:induction false} PutToken(jar: seq<Cookie>, v: string) returns (j: nat)
    requires WellFormedJar(jar) && ';' !in v
    ensures j <= |jar|
    ensures var jar' := PutCookie(jar, TokenCookieKey, v);
      && WellFormedJar(jar') && j < |jar'| && jar'[j] == Cookie(TokenCookieKey, v)
      && forall i :: 0 <= i < j ==> jar'[i] == jar[i] && jar[i].name != TokenCookieKey
  {
    var jar' := PutCookie(jar, TokenCookieKey, v);
    j := PutShape(jar, TokenCookieKey, v);
    KeyShape();
    forall i | 0 <= i < |jar'|
      ensures jar'[i].name != [] && ';' !in jar'[i].name && '=' !in jar'[i].name && ';' !in jar'[i].value
    {
      if i != j {
        assert jar'[i] == jar[i];
      }
    }
  }

  /**
   * A well-formed jar whose j-th cookie is `auth_token` with a value not
   * ending in whitespace, and none before it trims to `auth_token`, reads as
   * the decoding of that value.
   */
  lemma {:induction false} TokenEntryFirst(jar: seq<Cookie>, j: nat, v: string)
    requires WellFormedJar(jar) && j < |jar| && jar[j] == Cookie(TokenCookieKey, v)
    requires v != [] ==> !IsJsSpace(v[|v| - 1])
    requires forall i :: 0 <= i < j ==> TrimStart(jar[i].name) != TokenCookieKey
    ensures FindToken(Entries(jar)) == DecodeValue(v)
  {
    var es := Entries(jar);
    EntriesShape(jar);
    forall i | 0 <= i < j ensures EntryName(es[i]) != TokenCookieKey {
      EntriesOfJar(jar, i);
    }
    assert EntryName(es[j]) == TokenCookieKey && EntryValue(es[j]) == v by {
      EntriesOfJar(jar, j);
      KeyShape();
      assert TrimStart(TokenCookieKey) == TokenCookieKey;
      assert TrimEnd(v) == v;
    }
    FindTokenFirst(es, j);
  }

  /**
   * Round trip: after `setTokenCookie(t, m)` with a positive `m`,
   * `getTokenCookie()` returns `t`, whatever else the jar holds, provided no
   * other cookie's name trims to `auth_token`.
   */
  lemma {:induction false} SetThenGet(jar: seq<Cookie>, t: string, m: int, https: bool)
    requires WellFormedJar(jar) && NoLookalike(jar) && m > 0
    ensures FindToken(Entries(StoreCookie(jar, BuildCookieString(t, m, https)))) == Token(t)
  {
    var ev := Encode(t);
    var jar' := PutCookie(jar, TokenCookieKey, ev);
    assert StoreCookie(jar, BuildCookieString(t, m, https)) == jar' by {
      SetStoresToken(jar, t, m, https);
    }
    assert FindToken(Entries(jar')) == DecodeValue(ev) by {
      EncodedShape(t);
      var j := PutToken(jar, ev);
      forall i | 0 <= i < j ensures TrimStart(jar'[i].name) != TokenCookieKey {
        assert jar'[i] == jar[i];
      }
      TokenEntryFirst(jar', j, ev);
    }
    DecodeEncode(t);
  }

  /** After a write that removes `auth_token`, no entry is read as `auth_token`. */
  lemma {:induction false} RemovedTokenReadsNull(jar: seq<Cookie>)
    requires WellFormedJar(jar) && NoLookalike(jar)
    ensures FindToken(Entries(RemoveCookie(jar, TokenCookieKey))) == NoToken
  {
    var jar' := RemoveCookie(jar, TokenCookieKey);
    RemoveShape(jar, TokenCookieKey);
    SubJar(jar, jar');
    if jar' == [] {
      EmptyJarHasNoToken();
    } else {
      var es := Entries(jar');
      EntriesShape(jar');
      forall i | 0 <= i < |es| ensures EntryName(es[i]) != TokenCookieKey {
        EntriesOfJar(jar', i);
      }
      FindTokenNone(es);
    }
  }

  /**
   * `clearTokenCookie()` then `getTokenCookie()` is null, and no cookie named
   * `auth_token` is left.
   */
  lemma {:induction false} ClearThenGet(jar: seq<Cookie>, https: bool)
    requires WellFormedJar(jar) && NoLookalike(jar)
    ensures var jar' := if https then StoreCookie(StoreCookie(jar, ClearString(false)), ClearString(true))
                        else StoreCookie(jar, ClearString(false));
      && (forall i :: 0 <= i < |jar'| ==> jar'[i].name != TokenCookieKey)
      && FindToken(Entries(jar')) == NoToken
  {
    ClearIsBuilt(false);
    ClearIsBuilt(true);
    SetStoresToken(jar, "", 0, false);
    var once := RemoveCookie(jar, TokenCookieKey);
    RemoveShape(jar, TokenCookieKey);
    RemovedTokenReadsNull(jar);
    if https {
      SubJar(jar, once);
      SetStoresToken(once, "", 0, true);
      RemoveShape(once, TokenCookieKey);
      RemovedTokenReadsNull(once);
    }
  }
}
