/** The string `set` assigns to `document.cookie`: the encoded pair, then
    the attributes it chooses, each closed by `;`, in a fixed order; and a
    strict reader of that form, which shows the string says exactly what
    `set` was asked to say. */
module SetCookie {
  import opened JsText
  import opened UriComponent
  import opened CookieHeader

  /** The `sameSite` argument; `Lax` is its default. */
  datatype SameSite = Lax | None | Strict

  function SameSiteName(s: SameSite): (name: string)
    ensures name in {"Lax", "None", "Strict"}
  {
    match s
    case Lax => "Lax"
    case None => "None"
    case Strict => "Strict"
  }

  /** An optional boolean argument: absent, or given as true or false. */
  datatype OptBool = Unset | Bool(value: bool)

  /** The `expires` argument: absent, a number of days from now, or a date.
      The text `toUTCString()` gives for the expiry moment is carried along,
      since it depends on the clock. */
  datatype Expires = NoExpiry | InDays(days: real, utc: string) | OnDate(utc: string)

  /** `if (expires)`: a number is truthy unless zero, a date object always. */
  predicate ExpiresGiven(e: Expires) {
    match e
    case NoExpiry => false
    case InDays(days, _) => days != 0.0
    case OnDate(_) => true
  }

  /** Whether `secure;` is written: when `secure` is true, and when it is
      explicitly false while `sameSite` is `None` (it is then forced on);
      an absent `secure` is never forced. */
  function SecureWritten(secure: OptBool, sameSite: SameSite): (written: bool)
    ensures written <==> secure == Bool(true) || (secure == Bool(false) && sameSite == SameSite.None)
  {
    var forced := if secure == Bool(false) && sameSite == SameSite.None then Bool(true) else secure;
    forced.Bool? && forced.value
  }

  /** Each item followed by `;`. */
  function Terminated(items: seq<string>): string
    decreases |items|
  {
    if items == [] then "" else items[0] + ";" + Terminated(items[1..])
  }

  lemma {:induction false} TerminatedConcat(a: seq<string>, b: seq<string>)
    ensures Terminated(a + b) == Terminated(a) + Terminated(b)
    decreases |a|
  {
    if a == [] {
      assert a + b == b;
    } else {
      assert (a + b)[0] == a[0];
      assert (a + b)[1..] == a[1..] + b;
      TerminatedConcat(a[1..], b);
    }
  }

  /** Appending a terminated piece: a keyed value is `key`, the value and
      `;`; no value adds nothing. */
  lemma AppendKeyed(before: string, key: string, v: Option<string>)
    ensures before + Terminated(Keyed(key, v)) ==
      match v
      case None => before
      case Some(x) => before + key + x + ";"
  {
    if v.Some? {
      var item := key + v.value;
      assert Terminated([item]) == item + ";" + Terminated([]);
      assert before + (item + ";" + "") == before + key + v.value + ";";
    } else {
      assert before + "" == before;
    }
  }

  /** Terminating five pieces one after the other. */
  lemma TerminatedPieces(start: string, e: seq<string>, p: seq<string>, d: seq<string>, c: seq<string>, t: seq<string>)
    ensures start + Terminated(e + (p + (d + (c + t)))) ==
      start + Terminated(e) + Terminated(p) + Terminated(d) + Terminated(c) + Terminated(t)
  {
    var te, tp, td, tc, tt := Terminated(e), Terminated(p), Terminated(d), Terminated(c), Terminated(t);
    assert Terminated(c + t) == tc + tt by { TerminatedConcat(c, t); }
    assert Terminated(d + (c + t)) == td + (tc + tt) by { TerminatedConcat(d, c + t); }
    assert Terminated(p + (d + (c + t))) == tp + (td + (tc + tt)) by { TerminatedConcat(p, d + (c + t)); }
    assert Terminated(e + (p + (d + (c + t)))) == te + (tp + (td + (tc + tt))) by { TerminatedConcat(e, p + (d + (c + t))); }
    Regroup6(start, te, tp, td, tc, tt);
  }

  /** Appending the secure flag: `secure;` when it is written, else
      nothing. */
  lemma AppendSecure(before: string, secure: OptBool, sameSite: SameSite)
    ensures before + Terminated(SecureItems(secure, sameSite)) ==
      if SecureWritten(secure, sameSite) then before + "secure;" else before
  {
    if SecureWritten(secure, sameSite) {
      assert Terminated(["secure"]) == "secure" + ";" + Terminated([]);
    } else {
      assert before + "" == before;
    }
  }

  /** The attributes piece by piece, as `set` appends them. */
  lemma AttributePieces(start: string, expires: Expires, path: string, domain: string, secure: OptBool, sameSite: SameSite)
    ensures start + Terminated(AttributeItems(expires, path, domain, secure, sameSite)) ==
      start
      + Terminated(Keyed("expires=", ExpiresValue(expires)))
      + Terminated(Keyed("path=", Truthy(path)))
      + Terminated(Keyed("domain=", Truthy(domain)))
      + Terminated(SecureItems(secure, sameSite))
      + Terminated(Keyed("sameSite=", Some(SameSiteName(sameSite))))
  {
    TerminatedPieces(start, Keyed("expires=", ExpiresValue(expires)), Keyed("path=", Truthy(path)),
      Keyed("domain=", Truthy(domain)), SecureItems(secure, sameSite), Keyed("sameSite=", Some(SameSiteName(sameSite))));
  }

  /** The cookie string is the encoded pair, `;`, and the attributes. */
  lemma CookieStringHead(name: string, payload: string, expires: Expires, path: string, domain: string,
                         secure: OptBool, sameSite: SameSite)
    ensures CookieString(name, payload, expires, path, domain, secure, sameSite) ==
      Encode(name) + "=" + Encode(payload) + ";" + Terminated(AttributeItems(expires, path, domain, secure, sameSite))
  {
    var attrs := AttributeItems(expires, path, domain, secure, sameSite);
    assert ([Pair(name, payload)] + attrs)[1..] == attrs;
  }

  /** No item holds a `;`. */
  predicate NoSemicolon(items: seq<string>) {
    forall k :: 0 <= k < |items| ==> ';' !in items[k]
  }

  /** Items without `;` are what splitting their terminated form gives back,
      followed by the empty piece after the last `;`. */
  lemma {:induction false} SplitTerminated(items: seq<string>)
    requires NoSemicolon(items)
    ensures Split(Terminated(items), ';') == items + [""]
    decreases |items|
  {
    if items == [] {
      assert IndexOf("", ';') == 0;
    } else {
      var first, rest := items[0], items[1..];
      assert Split(Terminated(items), ';') == [first] + Split(Terminated(rest), ';') by {
        SplitCons(first, Terminated(rest), ';');
      }
      assert Split(Terminated(rest), ';') == rest + [""] by { SplitTerminated(rest); }
      ConsSnoc(items, "");
    }
  }

  /** `key` followed by the value, when there is one. */
  function Keyed(key: string, v: Option<string>): seq<string> {
    match v
    case None => []
    case Some(x) => [key + x]
  }

  /** The expiry text, when `expires` is truthy. */
  function ExpiresValue(expires: Expires): Option<string> {
    if ExpiresGiven(expires) then Some(expires.utc) else Option.None
  }

  /** An optional string argument: only a non-empty one is truthy. */
  function Truthy(s: string): Option<string> {
    if s != "" then Some(s) else Option.None
  }

  function SecureItems(secure: OptBool, sameSite: SameSite): seq<string> {
    if SecureWritten(secure, sameSite) then ["secure"] else []
  }

  /** The attribute items `set` writes after the pair, in their order. */
  function AttributeItems(expires: Expires, path: string, domain: string, secure: OptBool, sameSite: SameSite): seq<string> {
    Keyed("expires=", ExpiresValue(expires))
    + (Keyed("path=", Truthy(path))
    + (Keyed("domain=", Truthy(domain))
    + (SecureItems(secure, sameSite)
    + ["sameSite=" + SameSiteName(sameSite)])))
  }

  /** The cookie string for a payload (the value, or its ciphertext): the
      encoded pair and the attributes, each closed by `;`. */
  function CookieString(name: string, payload: string, expires: Expires, path: string, domain: string,
                        secure: OptBool, sameSite: SameSite): string
  {
    Terminated([Pair(name, payload)] + AttributeItems(expires, path, domain, secure, sameSite))
  }

  /** The date `delete` expires a cookie at. */
  const Epoch: string := "Thu, 01 Jan 1970 00:00:01 GMT"

  /** What `delete` writes: an empty value that expired at the epoch. */
  function DeletionString(name: string, path: string, domain: string, secure: OptBool, sameSite: SameSite): string {
    CookieString(name, "", OnDate(Epoch), path, domain, secure, sameSite)
  }

  // ---------------------------------------------------------------------
  // Reading a cookie string back

  /** The attributes a cookie string states, in the form `set` writes them. */
  datatype CookieAttributes = CookieAttributes(
    name: string, value: string, expires: Option<string>, path: Option<string>,
    domain: Option<string>, secure: bool, sameSite: string)

  function StripPrefix(prefix: string, s: string): (r: Option<string>)
    ensures r.Some? <==> |prefix| <= |s| && s[..|prefix|] == prefix
    ensures r.Some? ==> s == prefix + r.value
  {
    if |prefix| <= |s| && s[..|prefix|] == prefix then Some(s[|prefix|..]) else Option.None
  }

  /** The keyed item at the head of the list, if it is there. */
  function TakeKeyed(items: seq<string>, key: string): (Option<string>, seq<string>) {
    if items != [] && StripPrefix(key, items[0]).Some? then (StripPrefix(key, items[0]), items[1..]) else (Option.None, items)
  }

  /** The attributes after the pair, read strictly in the order `set`
      writes them: each optional one where it may stand, then `sameSite`
      and nothing after it. */
  function ReadAttributes(attrs: seq<string>): Option<(Option<string>, Option<string>, Option<string>, bool, string)> {
    var (expires, afterExpires) := TakeKeyed(attrs, "expires=");
    var (path, afterPath) := TakeKeyed(afterExpires, "path=");
    var (domain, afterDomain) := TakeKeyed(afterPath, "domain=");
    var secure := afterDomain != [] && afterDomain[0] == "secure";
    var last := if secure then afterDomain[1..] else afterDomain;
    if |last| != 1 || StripPrefix("sameSite=", last[0]).None? then Option.None
    else Some((expires, path, domain, secure, StripPrefix("sameSite=", last[0]).value))
  }

  /** A strict reader of a cookie string: the pair, then the attributes,
      each closed by `;`. */
  function ParseCookieString(s: string): Option<CookieAttributes> {
    var pieces := Split(s, ';');
    if |pieces| < 2 || pieces[|pieces| - 1] != "" then Option.None
    else
      var pair := Split(pieces[0], '=');
      match ReadAttributes(pieces[1..|pieces| - 1])
      case Some((expires, path, domain, secure, sameSite)) =>
        if |pair| != 2 then Option.None
        else Some(CookieAttributes(pair[0], pair[1], expires, path, domain, secure, sameSite))
      case _ => Option.None
  }

  /** The cookie string states exactly what `set` was asked for: the
      encoded name and payload, the expiry when `expires` is truthy, the
      path and domain when non-empty, `secure` under the forcing rule, and
      the `sameSite` value. */
  lemma CookieStringParses(name: string, payload: string, expires: Expires, path: string, domain: string,
                           secure: OptBool, sameSite: SameSite)
    requires ';' !in path && ';' !in domain
    requires expires.NoExpiry? || ';' !in expires.utc
    ensures ParseCookieString(CookieString(name, payload, expires, path, domain, secure, sameSite)) ==
      Some(CookieAttributes(
        Encode(name), Encode(payload),
        ExpiresValue(expires), Truthy(path), Truthy(domain),
        secure == Bool(true) || (secure == Bool(false) && sameSite == SameSite.None),
        SameSiteName(sameSite)))
  {
    var pair := Pair(name, payload);
    PairSegment("", name, payload);
    assert "" + pair == pair;
    AttributesFree(expires, path, domain, secure, sameSite);
    var attrs := AttributeItems(expires, path, domain, secure, sameSite);
    ParseTerminated(pair, attrs);
    AttributesRead(expires, path, domain, secure, sameSite);
    var cs := CookieString(name, payload, expires, path, domain, secure, sameSite);
    assert Split(cs, ';') == [pair] + attrs + [""];
    ParseOfPieces(cs, pair, attrs);
    assert "" + Encode(name) == Encode(name);
    assert Split(pair, '=') == [Encode(name), Encode(payload)];
    var a := ReadAttributes(attrs).value;
    assert ParseCookieString(cs) == Some(CookieAttributes(Encode(name), Encode(payload), a.0, a.1, a.2, a.3, a.4));
  }

  lemma ParseOfPieces(s: string, first: string, attrs: seq<string>)
    requires Split(s, ';') == [first] + attrs + [""]
    requires |Split(first, '=')| == 2
    requires ReadAttributes(attrs).Some?
    ensures
      var pair := Split(first, '=');
      var a := ReadAttributes(attrs).value;
      ParseCookieString(s) == Some(CookieAttributes(pair[0], pair[1], a.0, a.1, a.2, a.3, a.4))
  {
    var pieces := [first] + attrs + [""];
    assert pieces[0] == first;
    assert pieces[1..|pieces| - 1] == attrs;
  }

  /** Reading a terminated list: the first item is the pair, the rest the
      attributes. */
  lemma ParseTerminated(first: string, attrs: seq<string>)
    requires ';' !in first
    requires NoSemicolon(attrs)
    ensures Split(Terminated([first] + attrs), ';') == [first] + attrs + [""]
  {
    var items := [first] + attrs;
    forall k | 0 <= k < |items| ensures ';' !in items[k] {
      if k > 0 {
        assert items[k] == attrs[k - 1];
      }
    }
    SplitTerminated(items);
  }

  lemma NoSemicolonConcat(a: seq<string>, b: seq<string>)
    requires NoSemicolon(a) && NoSemicolon(b)
    ensures NoSemicolon(a + b)
  {
    forall k | 0 <= k < |a + b| ensures ';' !in (a + b)[k] {
      if k >= |a| {
        assert (a + b)[k] == b[k - |a|];
      }
    }
  }

  lemma KeyedFree(key: string, v: Option<string>)
    requires ';' !in key && (v.Some? ==> ';' !in v.value)
    ensures NoSemicolon(Keyed(key, v))
  {
    if v.Some? {
      assert Keyed(key, v)[0] == key + v.value;
    }
  }

  lemma AttributesFree(expires: Expires, path: string, domain: string, secure: OptBool, sameSite: SameSite)
    requires ';' !in path && ';' !in domain
    requires expires.NoExpiry? || ';' !in expires.utc
    ensures NoSemicolon(AttributeItems(expires, path, domain, secure, sameSite))
  {
    var sameSiteItem := "sameSite=" + SameSiteName(sameSite);
    assert NoSemicolon([sameSiteItem]);
    assert NoSemicolon(SecureItems(secure, sameSite));
    NoSemicolonConcat(SecureItems(secure, sameSite), [sameSiteItem]);
    var afterDomain := SecureItems(secure, sameSite) + [sameSiteItem];
    KeyedFree("domain=", Truthy(domain));
    NoSemicolonConcat(Keyed("domain=", Truthy(domain)), afterDomain);
    var afterPath := Keyed("domain=", Truthy(domain)) + afterDomain;
    KeyedFree("path=", Truthy(path));
    NoSemicolonConcat(Keyed("path=", Truthy(path)), afterPath);
    var afterExpires := Keyed("path=", Truthy(path)) + afterPath;
    KeyedFree("expires=", ExpiresValue(expires));
    NoSemicolonConcat(Keyed("expires=", ExpiresValue(expires)), afterExpires);
  }

  /** A keyed item is found at the head of the list, and nothing is taken
      when the head is an item with another first letter. */
  lemma TakeKeyedPiece(key: string, v: Option<string>, rest: seq<string>)
    requires key != [] && rest != [] && rest[0] != [] && rest[0][0] != key[0]
    ensures TakeKeyed(Keyed(key, v) + rest, key) == (v, rest)
    ensures (Keyed(key, v) + rest)[0] != [] && (Keyed(key, v) + rest)[0][0] in {key[0], rest[0][0]}
  {
    var items := Keyed(key, v) + rest;
    if v.Some? {
      assert items[0] == key + v.value;
      assert items[0][..|key|] == key;
      assert items[0][|key|..] == v.value;
      assert items[1..] == rest;
    } else {
      assert items == rest;
      assert StripPrefix(key, rest[0]).None? by {
        if |key| <= |rest[0]| {
          assert rest[0][..|key|][0] == rest[0][0];
        }
      }
    }
  }

  /** The strict reader finds each attribute `set` wrote, in its slot. */
  lemma AttributesRead(expires: Expires, path: string, domain: string, secure: OptBool, sameSite: SameSite)
    ensures ReadAttributes(AttributeItems(expires, path, domain, secure, sameSite)) ==
      Some((ExpiresValue(expires), Truthy(path), Truthy(domain), SecureWritten(secure, sameSite), SameSiteName(sameSite)))
  {
    var sameSiteItem := "sameSite=" + SameSiteName(sameSite);
    var afterDomain := SecureItems(secure, sameSite) + [sameSiteItem];
    assert afterDomain[0] != [] && afterDomain[0][0] == 's';
    TakeKeyedPiece("domain=", Truthy(domain), afterDomain);
    var afterPath := Keyed("domain=", Truthy(domain)) + afterDomain;
    TakeKeyedPiece("path=", Truthy(path), afterPath);
    var afterExpires := Keyed("path=", Truthy(path)) + afterPath;
    TakeKeyedPiece("expires=", ExpiresValue(expires), afterExpires);
    if SecureWritten(secure, sameSite) {
      assert afterDomain[1..] == [sameSiteItem];
    } else {
      assert afterDomain[0] != "secure" by {
        assert |afterDomain[0]| > 6;
      }
    }
    assert StripPrefix("sameSite=", sameSiteItem) == Some(SameSiteName(sameSite));
  }
}
