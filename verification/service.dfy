/** `NgxEncryptCookieService` over a host document. The document presents a
    cookie header and records every string assigned to `document.cookie`;
    how the host merges an assignment into the header it presents is not
    part of this model, so the header is fixed. */
module EncryptCookieService {
  import opened JsText
  import opened UriComponent
  import opened CookieRegExp
  import opened CookieHeader
  import opened SetCookie
  import opened Crypto

  /** The host's `document`: the header `document.cookie` reads, and the
      strings assigned to `document.cookie`, oldest first. */
  class Document {
    const cookie: string
    var assignments: seq<string>

    constructor(header: string)
      ensures cookie == header && assignments == []
    {
      cookie := header;
      assignments := [];
    }

    /** `document.cookie = s`. */
    method AssignCookie(s: string)
      modifies this
      ensures assignments == old(assignments) + [s]
    {
      assignments := assignments + [s];
    }
  }

  /** What `set` returns: `undefined` on a host without a document,
      "key fail", or true after its write. */
  datatype SetResult = Skipped | KeyFail | Written

  /** The strings `deleteAll` writes for the names it visits, in order. */
  function Deletions(names: seq<string>, path: string, domain: string, secure: OptBool, sameSite: SameSite): seq<string> {
    seq(|names|, i requires 0 <= i < |names| => DeletionString(names[i], path, domain, secure, sameSite))
  }

  lemma DeletionsSnoc(names: seq<string>, name: string, path: string, domain: string, secure: OptBool, sameSite: SameSite)
    ensures Deletions(names + [name], path, domain, secure, sameSite) ==
      Deletions(names, path, domain, secure, sameSite) + [DeletionString(name, path, domain, secure, sameSite)]
  {
  }

  class NgxEncryptCookieService {
    /** Whether the platform is a browser, fixed at construction. */
    const documentIsAccessible: bool
    const doc: Document
    const crypto: CryptoLib

    constructor(onBrowser: bool, doc: Document, crypto: CryptoLib)
      ensures documentIsAccessible == onBrowser && this.doc == doc && this.crypto == crypto
    {
      documentIsAccessible := onBrowser;
      this.doc := doc;
      this.crypto := crypto;
    }

    /** `check(cookieName)`: false without a document; otherwise whether,
        at the start of the header or after a `;` and whitespace, the
        header holds the encoded name, `=`, and a value ended by `;` or the
        end of the header. */
    function Check(cookieName: string): (found: bool)
      ensures found <==> (documentIsAccessible &&
        exists q :: 0 <= q <= |doc.cookie| && NameStart(doc.cookie, q) && NameValueAt(doc.cookie[q..], Encode(cookieName)).Some?)
      ensures found <==> documentIsAccessible && FindCookie(doc.cookie, cookieName).Some?
    {
      ExecMatchesNameStart(doc.cookie, Encode(cookieName));
      documentIsAccessible && FindCookie(doc.cookie, cookieName).Some?
    }

    /** The private `decrypt`: '' unless the cookie is there; otherwise its
        decoded value, or with `encrypted` the AES decryption of that value
        under the key, and `undefined` when no key is given. */
    function Decrypt(cookieName: string, encrypted: bool, secretKey: string): (r: Completion<string>)
      ensures !Check(cookieName) ==> r == Normal("")
      ensures Check(cookieName) && !encrypted ==> r == Normal(Lookup(doc.cookie, cookieName))
      ensures Check(cookieName) && encrypted && secretKey == "" ==> r == Undefined
      ensures r.Throw? ==> Check(cookieName) && encrypted && secretKey != ""
    {
      if documentIsAccessible && Check(cookieName) then
        var result := FindCookie(doc.cookie, cookieName).value;
        if encrypted then
          if secretKey != "" then
            match crypto.aesDecrypt(SafeDecode(result), secretKey)
            case Some(message) => Normal(message)
            case None => Throw
          else Undefined
        else Normal(SafeDecode(result))
      else Normal("")
    }

    /** `get(cookieName, encryption, key)`: never `undefined`; '' without a
        document or without a match; without encryption, or without a key,
        the plain decoded value. */
    function Get(cookieName: string, encryption: bool, key: string): (val: Completion<string>)
      ensures !val.Undefined?
      ensures !documentIsAccessible || FindCookie(doc.cookie, cookieName).None? ==> val == Normal("")
      ensures !(encryption && key != "") ==>
        val == Normal(if documentIsAccessible then Lookup(doc.cookie, cookieName) else "")
      ensures val.Throw? ==> encryption && key != ""
    {
      if encryption && key != "" then Decrypt(cookieName, encryption, key)
      else Decrypt(cookieName, false, "")
    }

    /** The private `getAllCookies()`: the dictionary of the header. */
    method GetAllCookies() returns (cookies: map<string, string>)
      ensures cookies == if documentIsAccessible then CookieMap(doc.cookie) else map[]
    {
      cookies := map[];
      if !documentIsAccessible {
        return;
      }
      var header := doc.cookie;
      if header != "" {
        var segments := Split(header, ';');
        var i := 0;
        while i < |segments|
          invariant 0 <= i <= |segments|
          invariant cookies == Entries(segments[..i])
        {
          // the name before the first `=`, trimmed and decoded; the value
          // after it, decoded, or "undefined" when there is no `=`
          cookies := cookies[EntryName(segments[i]) := EntryValue(segments[i])];
          EntriesSnoc(segments, i);
          i := i + 1;
        }
        assert segments[..|segments|] == segments;
      }
    }

    /** `getAll(encrypted, key)`. Unencrypted, the dictionary of the header.
        Encrypted, each name of the header mapped to what `get` returns for
        it; a `get` that throws ends the call with its exception. */
    method GetAll(encrypted: bool, key: string) returns (r: Completion<map<string, string>>)
      ensures !documentIsAccessible ==> r == Normal(map[])
      ensures documentIsAccessible && !encrypted ==> r == Normal(CookieMap(doc.cookie))
      ensures !r.Undefined?
      ensures r.Normal? ==> r.value.Keys == (if documentIsAccessible then CookieMap(doc.cookie).Keys else {})
      ensures documentIsAccessible && encrypted ==>
        (r.Throw? <==> exists k :: k in CookieMap(doc.cookie) && Get(k, true, key).Throw?)
      ensures documentIsAccessible && encrypted && r.Normal? ==>
        forall k :: k in r.value ==> Get(k, true, key) == Normal(r.value[k])
    {
      if !documentIsAccessible {
        return Normal(map[]);
      }
      if encrypted {
        if doc.cookie != "" {
          r := ReadEach(Split(doc.cookie, ';'), k => Get(k, true, key));
        } else {
          r := Normal(map[]);
        }
      } else {
        var cookies := GetAllCookies();
        r := Normal(cookies);
      }
    }

    /** The `forEach` of `getAll(true, key)` over the segments of the
        header: each segment's name is stored with what `read` (there,
        `get(name, true, key)`) returns for it; a read that throws ends the
        call with its exception. */
    static method ReadEach(segments: seq<string>, read: string -> Completion<string>)
      returns (r: Completion<map<string, string>>)
      requires forall k :: !read(k).Undefined?
      ensures !r.Undefined?
      ensures r.Normal? ==> r.value.Keys == Entries(segments).Keys
      ensures r.Throw? <==> exists k :: k in Entries(segments) && read(k).Throw?
      ensures r.Normal? ==> forall k :: k in r.value ==> read(k) == Normal(r.value[k])
    {
      var cookies: map<string, string> := map[];
      var i := 0;
      while i < |segments|
        invariant 0 <= i <= |segments|
        invariant cookies.Keys == Entries(segments[..i]).Keys
        invariant forall k :: k in cookies ==> read(k) == Normal(cookies[k])
      {
        // the name before the first `=`, trimmed and decoded
        var name := EntryName(segments[i]);
        var val := read(name);
        if val.Throw? {
          assert name in Entries(segments) by {
            EntriesKeys(segments, name);
          }
          return Throw;
        }
        cookies := cookies[name := val.value];
        EntriesSnoc(segments, i);
        i := i + 1;
      }
      assert segments[..|segments|] == segments;
      return Normal(cookies);
    }

    /** `set(...)`, with the random salt AES would draw as a parameter.
        Without a document nothing happens; encryption without a key is
        "key fail" and writes nothing; otherwise exactly one write: the
        cookie string for the value, or for its ciphertext. The private
        `encrypt` is the AES call itself: its guard holds for every key. */
    method Set(name: string, value: string, encrypt: bool, key: string, expires: Expires,
               path: string, domain: string, secure: OptBool, sameSite: SameSite, salt: seq<Byte>)
      returns (result: SetResult)
      modifies doc
      ensures !documentIsAccessible ==> result == Skipped
      ensures documentIsAccessible && encrypt && key == "" ==> result == KeyFail
      ensures result == Written <==> documentIsAccessible && !(encrypt && key == "")
      ensures result != Written ==> doc.assignments == old(doc.assignments)
      ensures result == Written ==>
        var payload := if encrypt then crypto.aesEncrypt(value, key, salt) else value;
        doc.assignments == old(doc.assignments) + [CookieString(name, payload, expires, path, domain, secure, sameSite)]
    {
      if !documentIsAccessible {
        return Skipped;
      }
      var payload: string;
      if encrypt {
        if key != "" {
          payload := crypto.aesEncrypt(value, key, salt);
        } else {
          return KeyFail;
        }
      } else {
        payload := value;
      }
      var cookieString := Encode(name) + "=" + Encode(payload) + ";";
      cookieString := AppendAttributes(cookieString, expires, path, domain, secure, sameSite);
      CookieStringHead(name, payload, expires, path, domain, secure, sameSite);
      doc.AssignCookie(cookieString);
      return Written;
    }

    /** The `cookieString +=` steps of `set` after the pair: each attribute
        it chooses, closed by `;`, in order. */
    static method AppendAttributes(start: string, expires: Expires, path: string, domain: string,
                                   secure: OptBool, sameSite: SameSite)
      returns (cookieString: string)
      ensures cookieString == start + Terminated(AttributeItems(expires, path, domain, secure, sameSite))
    {
      cookieString := start;
      ghost var written := start;
      ghost var before := cookieString;
      if expires.InDays? && expires.days != 0.0 {
        // the expiry moment is now plus the days; its UTC text is given
        cookieString := cookieString + "expires=" + expires.utc + ";";
      } else if expires.OnDate? {
        cookieString := cookieString + "expires=" + expires.utc + ";";
      }
      written := written + Terminated(Keyed("expires=", ExpiresValue(expires)));
      assert cookieString == written by {
        AppendKeyed(before, "expires=", ExpiresValue(expires));
      }

      before := cookieString;
      if path != "" {
        cookieString := cookieString + "path=" + path + ";";
      }
      written := written + Terminated(Keyed("path=", Truthy(path)));
      assert cookieString == written by {
        AppendKeyed(before, "path=", Truthy(path));
      }

      before := cookieString;
      if domain != "" {
        cookieString := cookieString + "domain=" + domain + ";";
      }
      written := written + Terminated(Keyed("domain=", Truthy(domain)));
      assert cookieString == written by {
        AppendKeyed(before, "domain=", Truthy(domain));
      }

      cookieString := AppendFlags(cookieString, secure, sameSite);
      written := written + Terminated(SecureItems(secure, sameSite))
        + Terminated(Keyed("sameSite=", Some(SameSiteName(sameSite))));
      AttributePieces(start, expires, path, domain, secure, sameSite);
    }

    /** The last two steps of `set`: the secure flag, forced on for a
        `false` flag with sameSite None, then the sameSite attribute. */
    static method AppendFlags(start: string, secure: OptBool, sameSite: SameSite) returns (cookieString: string)
      ensures cookieString == start + Terminated(SecureItems(secure, sameSite))
        + Terminated(Keyed("sameSite=", Some(SameSiteName(sameSite))))
    {
      var secureFlag := secure;
      if secure == Bool(false) && sameSite == SameSite.None {
        secureFlag := Bool(true);
      }
      cookieString := start;
      if secureFlag == Bool(true) {
        cookieString := cookieString + "secure;";
      }
      assert cookieString == start + Terminated(SecureItems(secure, sameSite)) by {
        AppendSecure(start, secure, sameSite);
      }
      ghost var before := cookieString;
      cookieString := cookieString + "sameSite=" + SameSiteName(sameSite) + ";";
      AppendKeyed(before, "sameSite=", Some(SameSiteName(sameSite)));
    }

    /** `delete(name, ...)`: the `set` of an empty, unencrypted value that
        expired at the epoch, with the given path, domain, secure flag and
        sameSite. */
    method Delete(name: string, path: string, domain: string, secure: OptBool, sameSite: SameSite)
      modifies doc
      ensures doc.assignments == old(doc.assignments) +
        (if documentIsAccessible then [DeletionString(name, path, domain, secure, sameSite)] else [])
    {
      if !documentIsAccessible {
        return;
      }
      var written := Set(name, "", false, "", OnDate(Epoch), path, domain, secure, sameSite, []);
    }

    /** `deleteAll(...)`: one deletion for each distinct name of the header's
        dictionary and no other write. The order in which the names are
        visited is returned alongside. */
    method DeleteAll(path: string, domain: string, secure: OptBool, sameSite: SameSite) returns (ghost order: seq<string>)
      modifies doc
      ensures !documentIsAccessible ==> order == []
      ensures documentIsAccessible ==> forall k :: k in order <==> k in CookieMap(doc.cookie)
      ensures forall i, j :: 0 <= i < j < |order| ==> order[i] != order[j]
      ensures doc.assignments == old(doc.assignments) + Deletions(order, path, domain, secure, sameSite)
    {
      order := [];
      if !documentIsAccessible {
        return;
      }
      var cookies := GetAllCookies();
      var names := cookies.Keys;
      while names != {}
        invariant forall k :: k in names ==> k in cookies
        invariant forall k :: k in cookies ==> (k in order <==> k !in names)
        invariant forall k :: k in order ==> k in cookies
        invariant forall i, j :: 0 <= i < j < |order| ==> order[i] != order[j]
        invariant doc.assignments == old(doc.assignments) + Deletions(order, path, domain, secure, sameSite)
        decreases |names|
      {
        var cookieName :| cookieName in names;
        Delete(cookieName, path, domain, secure, sameSite);
        assert doc.assignments == old(doc.assignments) + Deletions(order + [cookieName], path, domain, secure, sameSite) by {
          DeletionsSnoc(order, cookieName, path, domain, secure, sameSite);
          SnocRegroups(old(doc.assignments), Deletions(order, path, domain, secure, sameSite),
            DeletionString(cookieName, path, domain, secure, sameSite));
        }
        order := order + [cookieName];
        names := names - {cookieName};
      }
    }
  }

  // ---------------------------------------------------------------------
  // Reading headers in the form the browser presents them

  /** `check` and `get` on a browser header of stored pairs: the cookie is
      found exactly when some pair has the name; `get` yields the first
      such pair's value, or the decryption of it under a key, and '' when
      no pair has the name. */
  lemma GetFromBrowserHeader(svc: NgxEncryptCookieService, pairs: seq<(string, string)>, name: string,
                             encryption: bool, key: string)
    requires svc.documentIsAccessible && svc.doc.cookie == BrowserHeader(pairs)
    ensures svc.Check(name) <==> FirstValue(pairs, name).Some?
    ensures FirstValue(pairs, name).None? ==> svc.Get(name, encryption, key) == Normal("")
    ensures FirstValue(pairs, name).Some? && !(encryption && key != "") ==>
      svc.Get(name, encryption, key) == Normal(FirstValue(pairs, name).value)
    ensures FirstValue(pairs, name).Some? && encryption && key != "" ==>
      svc.Get(name, encryption, key) ==
        match svc.crypto.aesDecrypt(FirstValue(pairs, name).value, key)
        case Some(message) => Normal(message)
        case None => Throw
  {
    FindCookieInBrowserHeader(pairs, name);
    LookupInBrowserHeader(pairs, name);
    if FirstValue(pairs, name).Some? {
      SafeDecodeEncode(FirstValue(pairs, name).value);
    }
  }
}
