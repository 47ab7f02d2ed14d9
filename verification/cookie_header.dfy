/** Reading `document.cookie`: the dictionary `getAll` and `getAllCookies`
    build from it, and the single-cookie lookup that `check`, `get` and the
    raw branch of `decrypt` perform with `getCookieRegExp`. */
module CookieHeader {
  import opened JsText
  import opened UriComponent
  import opened CookieRegExp

  /** The dictionary key for one `;`-separated segment: the text before its
      first `=`, one leading space removed, percent-decoded if possible. */
  function EntryName(segment: string): string {
    SafeDecode(StripLeadingSpace(Split(segment, '=')[0]))
  }

  /** The dictionary value for one segment: the text between its first and
      second `=`, percent-decoded if possible. A segment without `=` leaves
      `cookieValue` undefined, and `decodeURIComponent(undefined)` is the
      string "undefined". */
  function EntryValue(segment: string): string {
    var parts := Split(segment, '=');
    if |parts| > 1 then SafeDecode(parts[1]) else "undefined"
  }

  /** The dictionary after the segments are stored in order, each
      assignment overwriting an earlier one with the same key. */
  function Entries(segments: seq<string>): map<string, string>
    decreases |segments|
  {
    if segments == [] then map[]
    else
      var last := segments[|segments| - 1];
      Entries(segments[..|segments| - 1])[EntryName(last) := EntryValue(last)]
  }

  /** Storing one more segment. */
  lemma EntriesSnoc(segments: seq<string>, i: nat)
    requires i < |segments|
    ensures Entries(segments[..i + 1]) == Entries(segments[..i])[EntryName(segments[i]) := EntryValue(segments[i])]
  {
    assert segments[..i + 1][..i] == segments[..i];
  }

  /** The keys are exactly the names of the segments. */
  lemma {:induction false} EntriesKeys(segments: seq<string>, key: string)
    ensures key in Entries(segments) <==> exists i :: 0 <= i < |segments| && EntryName(segments[i]) == key
    decreases |segments|
  {
    if segments != [] {
      var n := |segments|;
      var before := segments[..n - 1];
      EntriesKeys(before, key);
      if key in Entries(before) {
        var i :| 0 <= i < n - 1 && EntryName(before[i]) == key;
        assert segments[i] == before[i];
      }
      if exists i :: 0 <= i < n && EntryName(segments[i]) == key {
        var i :| 0 <= i < n && EntryName(segments[i]) == key;
        if i < n - 1 {
          assert before[i] == segments[i];
        }
      }
    }
  }

  /** What `getAll(false)` and `getAllCookies()` return for an accessible
      document: nothing for an empty header, else the entries of its
      `;`-separated segments. */
  function CookieMap(header: string): map<string, string> {
    if header == "" then map[] else Entries(Split(header, ';'))
  }

  /** A later segment with the same key overwrites an earlier one: the value
      stored for a key is that of the last segment carrying it. */
  lemma {:induction false} EntriesLastWins(segments: seq<string>, i: nat)
    requires i < |segments|
    requires forall j :: i < j < |segments| ==> EntryName(segments[j]) != EntryName(segments[i])
    ensures EntryName(segments[i]) in Entries(segments)
    ensures Entries(segments)[EntryName(segments[i])] == EntryValue(segments[i])
    decreases |segments|
  {
    var n := |segments|;
    var before, last := segments[..n - 1], segments[n - 1];
    var m := Entries(before);
    assert Entries(segments) == m[EntryName(last) := EntryValue(last)];
    if i < n - 1 {
      var key := EntryName(segments[i]);
      assert key in m && m[key] == EntryValue(segments[i]) by {
        assert before[i] == segments[i];
        LaterNamesDiffer(segments, i);
        EntriesLastWins(before, i);
      }
      UpdateElsewhere(m, EntryName(last), EntryValue(last), key);
    }
  }

  lemma UpdateElsewhere<K, V>(m: map<K, V>, k: K, v: V, key: K)
    requires key in m && k != key
    ensures key in m[k := v] && m[k := v][key] == m[key]
  {
  }

  /** The condition of EntriesLastWins carries over to the segments
      before the last one. */
  lemma LaterNamesDiffer(segments: seq<string>, i: nat)
    requires i < |segments| - 1
    requires forall j :: i < j < |segments| ==> EntryName(segments[j]) != EntryName(segments[i])
    ensures var before := segments[..|segments| - 1];
      forall j :: i < j < |before| ==> EntryName(before[j]) != EntryName(before[i])
  {
  }

  // ---------------------------------------------------------------------
  // Looking up one cookie

  /** The capture of `getCookieRegExp(encodeURIComponent(name)).exec(header)`.
      An encoded name holds no backslash, so its escaped form reads as the
      encoded name itself. */
  function FindCookie(header: string, name: string): (r: Option<string>)
    ensures r == ExecLiteral(header, Encode(name))
  {
    EncodedIsInert(name);
    EscapeReadsLiterally(Encode(name));
    Exec(GetCookieRegExp(Encode(name)), header)
  }

  /** The raw path of `get`: the decoded capture, or '' without a match. */
  function Lookup(header: string, name: string): string {
    match FindCookie(header, name)
    case Some(v) => SafeDecode(v)
    case None => ""
  }

  // ---------------------------------------------------------------------
  // Headers in the form the browser presents them

  /** The `name=value` pair at the head of every string `set` writes. */
  function Pair(name: string, value: string): string {
    Encode(name) + "=" + Encode(value)
  }

  /** Strings joined the way the browser presents the stored cookies:
      separated by "; ". */
  function JoinHeader(items: seq<string>): string
    decreases |items|
  {
    if items == [] then ""
    else if |items| == 1 then items[0]
    else items[0] + "; " + JoinHeader(items[1..])
  }

  /** The segments `split(';')` cuts such a header into: every item but the
      first keeps the space that followed its `;`. */
  function Spaced(items: seq<string>): (segments: seq<string>)
    ensures |segments| == |items|
  {
    seq(|items|, i requires 0 <= i < |items| => if i == 0 then items[i] else " " + items[i])
  }

  lemma {:induction false} SplitJoinHeader(items: seq<string>)
    requires items != []
    requires forall k :: 0 <= k < |items| ==> ';' !in items[k]
    ensures Split(JoinHeader(items), ';') == Spaced(items)
    decreases |items|
  {
    if |items| == 1 {
      assert forall k :: 0 <= k < |items[0]| ==> items[0][k] != ';';
    } else {
      var first := items[0];
      var rest := JoinHeader(items[1..]);
      var tail := Spaced(items[1..]);
      SplitJoinHeader(items[1..]);
      assert first + "; " + rest == first + [';'] + (" " + rest);
      SplitCons(first, " " + rest, ';');
      SplitPrefix(" ", rest, ';');
      SpacedCons(items);
    }
  }

  lemma SpacedCons(items: seq<string>)
    requires |items| >= 2
    ensures Spaced(items) == [items[0]] + ([" " + Spaced(items[1..])[0]] + Spaced(items[1..])[1..])
  {
    var tail := Spaced(items[1..]);
    var split := [items[0]] + ([" " + tail[0]] + tail[1..]);
    forall k | 0 <= k < |items| ensures Spaced(items)[k] == split[k] {
      if k == 1 {
        assert tail[0] == items[1];
      } else if k > 1 {
        assert split[k] == tail[k - 1];
        assert tail[k - 1] == " " + items[1..][k - 1];
        assert items[1..][k - 1] == items[k];
      }
    }
  }

  lemma JoinHeaderStarts(items: seq<string>)
    requires items != []
    ensures |items[0]| <= |JoinHeader(items)| && JoinHeader(items)[..|items[0]|] == items[0]
  {
  }

  /** The `name=value` strings of stored pairs. */
  function PairStrings(pairs: seq<(string, string)>): (items: seq<string>)
    ensures |items| == |pairs|
  {
    seq(|pairs|, i requires 0 <= i < |pairs| => Pair(pairs[i].0, pairs[i].1))
  }

  /** A header as the browser presents it: stored pairs joined by "; ". */
  function BrowserHeader(pairs: seq<(string, string)>): string {
    JoinHeader(PairStrings(pairs))
  }

  /** The dictionary a list of pairs gives when later pairs overwrite
      earlier ones. */
  function PairsMap(pairs: seq<(string, string)>): map<string, string>
    decreases |pairs|
  {
    if pairs == [] then map[]
    else PairsMap(pairs[..|pairs| - 1])[pairs[|pairs| - 1].0 := pairs[|pairs| - 1].1]
  }

  /** The value of the first pair with the given name. */
  function FirstValue(pairs: seq<(string, string)>, name: string): Option<string>
    decreases |pairs|
  {
    if pairs == [] then None
    else if pairs[0].0 == name then Some(pairs[0].1)
    else FirstValue(pairs[1..], name)
  }

  lemma PairSegment(prefix: string, name: string, value: string)
    requires prefix == "" || prefix == " "
    ensures Split(prefix + Pair(name, value), '=') == [prefix + Encode(name), Encode(value)]
    ensures ';' !in prefix + Pair(name, value)
  {
    var e, v := Encode(name), Encode(value);
    assert '=' !in prefix + e && '=' !in v && ';' !in prefix + e && ';' !in v by {
      EncodedIsInert(name);
      EncodedIsInert(value);
    }
    var parts := [prefix + e, v];
    assert Join(parts, '=') == prefix + Pair(name, value) by {
      assert Join(parts[1..], '=') == v;
      ConcatRegroups(prefix, e, "=", v);
    }
    SplitJoin(parts, '=');
  }

  lemma EntryOfPair(prefix: string, name: string, value: string)
    requires prefix == "" || prefix == " "
    ensures EntryName(prefix + Pair(name, value)) == name
    ensures EntryValue(prefix + Pair(name, value)) == value
  {
    PairSegment(prefix, name, value);
    EncodedIsInert(name);
    var e := Encode(name);
    if e != [] {
      assert !IsWhiteSpace(e[0]);
    }
    assert StripLeadingSpace(prefix + e) == e;
    SafeDecodeEncode(name);
    SafeDecodeEncode(value);
  }

  lemma {:induction false} EntriesOfPairs(pairs: seq<(string, string)>)
    ensures Entries(Spaced(PairStrings(pairs))) == PairsMap(pairs)
    decreases |pairs|
  {
    if pairs != [] {
      var n := |pairs|;
      var segments := Spaced(PairStrings(pairs));
      var before := pairs[..n - 1];
      forall k | 0 <= k < n - 1 ensures segments[k] == Spaced(PairStrings(before))[k] {
        assert before[k] == pairs[k];
      }
      assert segments[..n - 1] == Spaced(PairStrings(before));
      EntriesOfPairs(before);
      var prefix := if n - 1 == 0 then "" else " ";
      assert segments[n - 1] == prefix + Pair(pairs[n - 1].0, pairs[n - 1].1);
      EntryOfPair(prefix, pairs[n - 1].0, pairs[n - 1].1);
    }
  }

  /** getAll round trip: the dictionary read from a browser header is the
      stored pairs, a later pair with the same name overwriting an earlier
      one. */
  lemma CookieMapOfBrowserHeader(pairs: seq<(string, string)>)
    ensures CookieMap(BrowserHeader(pairs)) == PairsMap(pairs)
  {
    if pairs != [] {
      var items := PairStrings(pairs);
      forall k | 0 <= k < |items| ensures ';' !in items[k] {
        PairSegment("", pairs[k].0, pairs[k].1);
        assert "" + items[k] == items[k];
      }
      SplitJoinHeader(items);
      JoinHeaderStarts(items);
      assert BrowserHeader(pairs) != "" by {
        assert items[0] == Encode(pairs[0].0) + "=" + Encode(pairs[0].1);
        assert |items[0]| > 0;
      }
      EntriesOfPairs(pairs);
    }
  }

  /** Peeling the first pair off a browser header. */
  lemma BrowserHeaderCons(pairs: seq<(string, string)>)
    requires |pairs| >= 2
    ensures BrowserHeader(pairs) == Pair(pairs[0].0, pairs[0].1) + "; " + BrowserHeader(pairs[1..])
  {
    assert PairStrings(pairs)[1..] == PairStrings(pairs[1..]);
  }

  lemma {:induction false} LazyCaptureUpTo(t: string, tail: string)
    requires ';' !in t && forall k :: 0 <= k < |t| ==> !IsLineTerminator(t[k])
    requires tail == [] || tail[0] == ';'
    ensures LazyCapture(t + tail) == Some(t)
    decreases |t|
  {
    if t == [] {
      assert t + tail == tail;
    } else {
      assert (t + tail)[0] == t[0];
      assert (t + tail)[1..] == t[1..] + tail;
      LazyCaptureUpTo(t[1..], tail);
      assert t == [t[0]] + t[1..];
    }
  }

  /** Text without `=` that the header holds right before an `=` stands
      where the header's first `=` does. */
  lemma FirstEquals(t: string, lit: string)
    requires '=' !in lit && |lit| < |t| && t[..|lit|] == lit && t[|lit|] == '='
    ensures IndexOf(t, '=') == |lit|
  {
    assert forall k :: 0 <= k < |lit| ==> t[k] == lit[k];
  }

  /** Only the key of a segment `key=...` can stand before its first `=`. */
  lemma NameBeforeEquals(key: string, rest: string, lit: string)
    requires '=' !in key && '=' !in lit
    ensures var t := key + "=" + rest;
      |lit| < |t| && t[..|lit|] == lit && t[|lit|] == '=' ==> lit == key
  {
    var t := key + "=" + rest;
    assert t == key + ("=" + rest);
    IndexOfAfterFree(key, "=" + rest, '=');
    if |lit| < |t| && t[..|lit|] == lit && t[|lit|] == '=' {
      FirstEquals(t, lit);
      assert t[..|key|] == key;
    }
  }

  /** The regular expression finds a name at the head of a segment
      `key=value` exactly when it is that segment's key, and then captures
      the value. */
  lemma NameValueAtSegment(key: string, value: string, tail: string, lit: string)
    requires '=' !in key && '=' !in lit
    requires ';' !in value && forall k :: 0 <= k < |value| ==> !IsLineTerminator(value[k])
    requires tail == [] || tail[0] == ';'
    ensures NameValueAt(key + "=" + value + tail, lit) == if key == lit then Some(value) else None
  {
    var t := key + "=" + value + tail;
    assert t == key + "=" + (value + tail);
    NameBeforeEquals(key, value + tail, lit);
    if key == lit {
      assert t == key + ("=" + (value + tail));
      assert t[..|lit|] == lit;
      assert t[|lit| + 1..] == value + tail;
      LazyCaptureUpTo(value, tail);
    }
  }

  /** The same for a pair written by `set`, looked up by name. */
  lemma NameValueAtPair(n0: string, v0: string, tail: string, name: string)
    requires tail == [] || tail[0] == ';'
    ensures NameValueAt(Pair(n0, v0) + tail, Encode(name)) ==
      if n0 == name then Some(Encode(v0)) else None
  {
    EncodedIsInert(n0);
    EncodedIsInert(v0);
    EncodedIsInert(name);
    EncodeInjective(n0, name);
    var v := Encode(v0);
    forall k | 0 <= k < |v| ensures !IsLineTerminator(v[k]) {
      assert !IsWhiteSpace(v[k]);
    }
    NameValueAtSegment(Encode(n0), v, tail, Encode(name));
  }

  lemma {:induction false} ScanSkip(a: string, b: string, lit: string)
    requires ';' !in a
    ensures Scan(a + b, lit) == Scan(b, lit)
    decreases |a|
  {
    if a == [] {
      assert a + b == b;
    } else {
      assert (a + b)[0] == a[0];
      assert (a + b)[1..] == a[1..] + b;
      ScanSkip(a[1..], b, lit);
    }
  }

  /** After "; " the search resumes exactly as a fresh search of the rest,
      for a name that does not start with whitespace. */
  lemma ScanSeparator(rest: string, lit: string)
    requires rest != [] && !IsWhiteSpace(rest[0])
    requires lit == [] || !IsWhiteSpace(lit[0])
    ensures Scan("; " + rest, lit) == ExecLiteral(rest, lit)
  {
    var t := "; " + rest;
    var u := " " + rest;
    assert t[1..] == u && u[1..] == rest && u[0..] == u;
    assert LeadingWhiteSpace(u) == 1;
    assert NameValueAt(u, lit).None? by {
      assert u[0] == ' ';
      assert forall m :: 0 < m <= |u| ==> u[..m][0] == ' ';
    }
    assert Backtrack(u, lit, 0).None?;
    assert AfterSemicolon(t, lit) == NameValueAt(rest, lit);
    assert AfterSemicolon(u, lit).None?;
    assert Scan(u, lit) == Scan(rest, lit);
  }

  /** A browser header starts with its first pair, so never with
      whitespace. */
  lemma BrowserHeaderHead(pairs: seq<(string, string)>)
    requires pairs != []
    ensures BrowserHeader(pairs) != [] && !IsWhiteSpace(BrowserHeader(pairs)[0])
  {
    var p := Pair(pairs[0].0, pairs[0].1);
    var h := BrowserHeader(pairs);
    JoinHeaderStarts(PairStrings(pairs));
    assert h[..|p|] == p;
    EncodedIsInert(pairs[0].0);
    if Encode(pairs[0].0) != [] {
      assert h[0] == Encode(pairs[0].0)[0];
    } else {
      assert h[0] == '=';
    }
  }

  lemma ExecOfLastPair(n0: string, v0: string, name: string)
    ensures ExecLiteral(Pair(n0, v0), Encode(name)) == if n0 == name then Some(Encode(v0)) else None
  {
    var p := Pair(n0, v0);
    assert p == p + [];
    NameValueAtPair(n0, v0, [], name);
    PairSegment("", n0, v0);
    ScanSkip(p, [], Encode(name));
  }

  lemma ExecOfPairThen(n0: string, v0: string, rest: string, name: string)
    requires rest != [] && !IsWhiteSpace(rest[0])
    ensures ExecLiteral(Pair(n0, v0) + "; " + rest, Encode(name)) ==
      if n0 == name then Some(Encode(v0)) else ExecLiteral(rest, Encode(name))
  {
    var p := Pair(n0, v0);
    var lit := Encode(name);
    assert p + "; " + rest == p + ("; " + rest);
    NameValueAtPair(n0, v0, "; " + rest, name);
    PairSegment("", n0, v0);
    ScanSkip(p, "; " + rest, lit);
    EncodedIsInert(name);
    ScanSeparator(rest, lit);
  }

  /** get round trip: in a browser header, the lookup of a name finds the
      first pair with that name and captures its encoded value; a name no
      pair has finds no match. */
  lemma {:induction false} FindCookieInBrowserHeader(pairs: seq<(string, string)>, name: string)
    ensures FindCookie(BrowserHeader(pairs), name) ==
      match FirstValue(pairs, name) case None => None case Some(v) => Some(Encode(v))
    decreases |pairs|
  {
    if |pairs| == 1 {
      assert BrowserHeader(pairs) == Pair(pairs[0].0, pairs[0].1);
      ExecOfLastPair(pairs[0].0, pairs[0].1, name);
    } else if |pairs| > 1 {
      BrowserHeaderCons(pairs);
      BrowserHeaderHead(pairs[1..]);
      ExecOfPairThen(pairs[0].0, pairs[0].1, BrowserHeader(pairs[1..]), name);
      FindCookieInBrowserHeader(pairs[1..], name);
    }
  }

  lemma LookupInBrowserHeader(pairs: seq<(string, string)>, name: string)
    ensures Lookup(BrowserHeader(pairs), name) ==
      match FirstValue(pairs, name) case None => "" case Some(v) => v
  {
    FindCookieInBrowserHeader(pairs, name);
    if FirstValue(pairs, name).Some? {
      SafeDecodeEncode(FirstValue(pairs, name).value);
    }
  }
}
