/** `getCookieRegExp(name)` and what the pattern it builds,
    `(?:^N|;\s*N)=(.*?)(?:;|$)` with `N` the escaped name and the `g` flag,
    matches when `exec` runs it once from the start of a header.

    The pattern is kept as the escaped name it is built from. Its meaning is
    given for escaped names that read as a literal (LiteralOf): the matcher
    below follows the backtracking order of an ECMAScript regular
    expression for this pattern, position by position. */
module CookieRegExp {
  import opened JsText

  /** The characters `getCookieRegExp` prefixes with a backslash. */
  predicate IsEscaped(c: char) {
    c in "[]{}()|=;+?,.*^$"
  }

  /** ECMAScript SyntaxCharacter: the characters that mean something other
      than themselves in a pattern. */
  predicate IsSyntaxCharacter(c: char) {
    c in "^$\\.*+?()[]{}|"
  }

  /** `name.replace(/([\[\]\{\}\(\)\|\=\;\+\?\,\.\*\^\$])/gi, '\\$1')`. */
  function Escape(name: string): (escaped: string)
    ensures |escaped| >= |name|
  {
    if name == [] then []
    else (if IsEscaped(name[0]) then ['\\', name[0]] else [name[0]]) + Escape(name[1..])
  }

  function Prepend(c: char, r: Option<string>): Option<string> {
    match r
    case None => None
    case Some(t) => Some([c] + t)
  }

  /** The text a pattern matches when it is made only of ordinary characters
      and backslash escapes of the characters above; None for any other
      pattern. */
  function LiteralOf(pattern: string): Option<string>
    decreases |pattern|
  {
    if pattern == [] then Some([])
    else if pattern[0] == '\\' then
      if |pattern| >= 2 && IsEscaped(pattern[1]) then Prepend(pattern[1], LiteralOf(pattern[2..])) else None
    else if IsSyntaxCharacter(pattern[0]) then None
    else Prepend(pattern[0], LiteralOf(pattern[1..]))
  }

  /** The regular expression `getCookieRegExp` returns, by the escaped name
      it is built from. */
  datatype CookiePattern = CookiePattern(escapedName: string)

  function GetCookieRegExp(name: string): CookiePattern {
    CookiePattern(Escape(name))
  }

  /** The escaping is exact: the escaped name reads back as the name itself
      whenever the name holds no backslash, and a backslash (which the
      escaping lets through) spoils the pattern. */
  lemma {:induction false} EscapeReadsLiterally(name: string)
    ensures '\\' !in name ==> LiteralOf(Escape(name)) == Some(name)
    ensures '\\' in name ==> LiteralOf(Escape(name)).None?
    decreases |name|
  {
    if name != [] {
      var c := name[0];
      var rest := Escape(name[1..]);
      EscapeReadsLiterally(name[1..]);
      assert name == [c] + name[1..];
      if IsEscaped(c) {
        assert Escape(name) == ['\\', c] + rest;
        assert Escape(name)[2..] == rest;
      } else if c == '\\' {
        assert Escape(name) == ['\\'] + rest;
        assert rest == [] || rest[0] == '\\' || !IsEscaped(rest[0]) by {
          if name[1..] != [] {
            assert rest[0] == (if IsEscaped(name[1]) then '\\' else name[1]);
          }
        }
      } else {
        assert Escape(name) == [c] + rest;
        assert Escape(name)[1..] == rest;
      }
    }
  }

  // ---------------------------------------------------------------------
  // The matcher, over suffixes of the header

  /** `(.*?)(?:;|$)` from the start of `t`: the shortest run that a `;` or the
      end of the header follows; `.` does not pass a line terminator. */
  function LazyCapture(t: string): (r: Option<string>)
    ensures r.Some? ==> |r.value| <= |t| && t[..|r.value|] == r.value
    ensures r.Some? ==> |r.value| == |t| || t[|r.value|] == ';'
    ensures r.Some? ==> ';' !in r.value && forall k :: 0 <= k < |r.value| ==> !IsLineTerminator(r.value[k])
    ensures r.None? ==> exists k :: 0 <= k < |t| && IsLineTerminator(t[k])
    decreases |t|
  {
    if t == [] || t[0] == ';' then Some([])
    else if IsLineTerminator(t[0]) then None
    else Prepend(t[0], LazyCapture(t[1..]))
  }

  /** `N=(.*?)(?:;|$)` at the start of `t`, with `N` read as the literal `lit`. */
  function NameValueAt(t: string, lit: string): Option<string> {
    if |lit| < |t| && t[..|lit|] == lit && t[|lit|] == '=' then LazyCapture(t[|lit| + 1..]) else None
  }

  /** The number of whitespace characters `t` starts with. */
  function LeadingWhiteSpace(t: string): (n: nat)
    ensures n <= |t|
    ensures forall k :: 0 <= k < n ==> IsWhiteSpace(t[k])
    ensures n < |t| ==> !IsWhiteSpace(t[n])
  {
    if t != [] && IsWhiteSpace(t[0]) then 1 + LeadingWhiteSpace(t[1..]) else 0
  }

  /** `\s*` gives back one whitespace character at a time: try the name
      after `k` of them, then after fewer. */
  function Backtrack(t: string, lit: string, k: nat): Option<string>
    requires k <= |t|
  {
    match NameValueAt(t[k..], lit)
    case Some(v) => Some(v)
    case None => if k == 0 then None else Backtrack(t, lit, k - 1)
  }

  /** The second alternative, `;\s*N=(.*?)(?:;|$)`, at the start of `t`. */
  function AfterSemicolon(t: string, lit: string): Option<string> {
    if t != [] && t[0] == ';' then Backtrack(t[1..], lit, LeadingWhiteSpace(t[1..])) else None
  }

  /** The leftmost match of the second alternative in `t`. */
  function Scan(t: string, lit: string): Option<string>
    decreases |t|
  {
    match AfterSemicolon(t, lit)
    case Some(v) => Some(v)
    case None => if t == [] then None else Scan(t[1..], lit)
  }

  /** The capture of the first match in `header`: at position 0 the first
      alternative (`^N`) is tried before the second; `^` fails everywhere
      else. */
  function ExecLiteral(header: string, lit: string): Option<string> {
    match NameValueAt(header, lit)
    case Some(v) => Some(v)
    case None => Scan(header, lit)
  }

  /** `pattern.exec(header)[1]`, None when `exec` returns null. */
  function Exec(pattern: CookiePattern, header: string): Option<string>
    requires LiteralOf(pattern.escapedName).Some?
  {
    ExecLiteral(header, LiteralOf(pattern.escapedName).value)
  }

  // ---------------------------------------------------------------------
  // What the pattern matches, stated without the search order

  predicate AllWhiteSpace(h: string, i: int, j: int)
    requires 0 <= i <= j <= |h|
  {
    forall k :: i <= k < j ==> IsWhiteSpace(h[k])
  }

  /** A name may start at `q`: the start of the header, or after a `;` and
      whitespace. */
  ghost predicate NameStart(h: string, q: nat)
    requires q <= |h|
  {
    q == 0 || exists j :: 0 <= j < q && h[j] == ';' && AllWhiteSpace(h, j + 1, q)
  }

  /** The pattern finds a match exactly when, somewhere the name may start,
      the header holds the name, `=`, and a value that a `;` or the end
      follows without a line terminator in between; the capture is such a
      value. When the name does not itself start with whitespace (no encoded
      name does), the capture is the value at the leftmost such place. */
  lemma ExecMatchesNameStart(h: string, lit: string)
    ensures ExecLiteral(h, lit).Some? <==> exists q :: 0 <= q <= |h| && NameStart(h, q) && NameValueAt(h[q..], lit).Some?
    ensures ExecLiteral(h, lit).Some? ==>
      exists q :: 0 <= q <= |h| && NameStart(h, q) && NameValueAt(h[q..], lit) == ExecLiteral(h, lit)
    ensures (lit == [] || !IsWhiteSpace(lit[0])) && ExecLiteral(h, lit).Some? ==>
      exists q :: 0 <= q <= |h| && NameStart(h, q) && NameValueAt(h[q..], lit) == ExecLiteral(h, lit) &&
        forall q' :: 0 <= q' < q && NameStart(h, q') ==> NameValueAt(h[q'..], lit).None?
  {
    assert h[0..] == h;
    if ExecLiteral(h, lit).Some? && NameValueAt(h, lit).None? {
      var j, q := ScanSound(h, lit, 0);
      if lit == [] || !IsWhiteSpace(lit[0]) {
        forall q' | 0 <= q' < q && NameStart(h, q') ensures NameValueAt(h[q'..], lit).None? {
          if q' > 0 {
            NoEarlierMatch(h, lit, j, q, q');
          }
        }
      }
    }
    if exists q :: 0 <= q <= |h| && NameStart(h, q) && NameValueAt(h[q..], lit).Some? {
      var q :| 0 <= q <= |h| && NameStart(h, q) && NameValueAt(h[q..], lit).Some?;
      if q > 0 {
        var j :| 0 <= j < q && h[j] == ';' && AllWhiteSpace(h, j + 1, q);
        ScanComplete(h, lit, 0, j, q);
      }
    }
  }

  /** The `;\s*N` alternative, when it matches, matches after the first `;`
      from which it can: at a name start whose whitespace follows that `;`,
      and no earlier `;` admits a match. */
  lemma {:induction false} ScanSound(h: string, lit: string, p: nat) returns (j: nat, q: nat)
    requires p <= |h|
    requires Scan(h[p..], lit).Some?
    ensures p <= j < q <= |h| && h[j] == ';' && AllWhiteSpace(h, j + 1, q) && NameStart(h, q)
    ensures NameValueAt(h[q..], lit) == Scan(h[p..], lit)
    ensures forall j' :: p <= j' < j && h[j'] == ';' ==> AfterSemicolon(h[j'..], lit).None?
    decreases |h| - p
  {
    var t := h[p..];
    if AfterSemicolon(t, lit).Some? {
      var u := t[1..];
      assert u == h[p + 1..];
      var k := BacktrackSound(u, lit, LeadingWhiteSpace(u));
      j, q := p, p + 1 + k;
      assert u[k..] == h[q..];
      assert AllWhiteSpace(h, p + 1, q) by {
        forall i | p + 1 <= i < q ensures IsWhiteSpace(h[i]) {
          assert h[i] == u[i - p - 1];
        }
      }
    } else {
      assert t != [];
      assert t[1..] == h[p + 1..];
      j, q := ScanSound(h, lit, p + 1);
    }
  }

  /** A name start before the one found after the `;` at `j` cannot hold the
      name: after an earlier `;` the alternative has already failed, and
      between `j` and the match there is only whitespace, where a name that
      does not start with whitespace cannot stand. */
  lemma NoEarlierMatch(h: string, lit: string, j: nat, q: nat, q': nat)
    requires lit == [] || !IsWhiteSpace(lit[0])
    requires j < q <= |h| && h[j] == ';' && AllWhiteSpace(h, j + 1, q)
    requires forall j' :: 0 <= j' < j && h[j'] == ';' ==> AfterSemicolon(h[j'..], lit).None?
    requires 0 < q' < q && NameStart(h, q')
    ensures NameValueAt(h[q'..], lit).None?
  {
    var j' :| 0 <= j' < q' && h[j'] == ';' && AllWhiteSpace(h, j' + 1, q');
    if j' < j {
      FailedAfterSemicolon(h, lit, j', q');
    } else {
      assert j' == j;
      assert IsWhiteSpace(h[q']);
      NameNotAtWhiteSpace(h[q'..], lit);
    }
  }

  /** When the alternative fails after the `;` at `j`, the name stands after
      none of the whitespace that follows it. */
  lemma FailedAfterSemicolon(h: string, lit: string, j: nat, q: nat)
    requires j < q <= |h| && h[j] == ';' && AllWhiteSpace(h, j + 1, q)
    requires AfterSemicolon(h[j..], lit).None?
    ensures NameValueAt(h[q..], lit).None?
  {
    var u, i := h[j + 1..], q - j - 1;
    var w := LeadingWhiteSpace(u);
    assert Backtrack(u, lit, w).None? by {
      assert h[j..][0] == ';' && h[j..][1..] == u;
    }
    assert i <= w by {
      assert forall k :: 0 <= k < i ==> u[k] == h[j + 1 + k];
    }
    assert NameValueAt(u[i..], lit).None? by {
      BacktrackComplete(u, lit, w, i);
    }
    assert u[i..] == h[q..];
  }

  /** A name that does not start with whitespace is not found where
      whitespace stands. */
  lemma NameNotAtWhiteSpace(t: string, lit: string)
    requires lit == [] || !IsWhiteSpace(lit[0])
    requires t != [] && IsWhiteSpace(t[0])
    ensures NameValueAt(t, lit).None?
  {
  }

  lemma {:induction false} BacktrackSound(t: string, lit: string, k: nat) returns (i: nat)
    requires k <= |t|
    requires Backtrack(t, lit, k).Some?
    ensures i <= k && NameValueAt(t[i..], lit) == Backtrack(t, lit, k)
    decreases k
  {
    if NameValueAt(t[k..], lit).Some? {
      i := k;
    } else {
      i := BacktrackSound(t, lit, k - 1);
    }
  }

  lemma {:induction false} BacktrackComplete(t: string, lit: string, k: nat, i: nat)
    requires i <= k <= |t|
    ensures NameValueAt(t[i..], lit).Some? ==> Backtrack(t, lit, k).Some?
    decreases k
  {
    if k > i && NameValueAt(t[k..], lit).None? {
      BacktrackComplete(t, lit, k - 1, i);
    }
  }

  lemma {:induction false} ScanComplete(h: string, lit: string, p: nat, j: nat, q: nat)
    requires p <= j < q <= |h|
    requires h[j] == ';' && AllWhiteSpace(h, j + 1, q)
    requires NameValueAt(h[q..], lit).Some?
    ensures Scan(h[p..], lit).Some?
    decreases j - p
  {
    var t := h[p..];
    if p == j {
      var u := t[1..];
      assert u == h[j + 1..];
      var w := LeadingWhiteSpace(u);
      var i := q - j - 1;
      assert u[i..] == h[q..];
      BacktrackComplete(u, lit, w, i);
    } else if AfterSemicolon(t, lit).None? {
      assert t[1..] == h[p + 1..];
      ScanComplete(h, lit, p + 1, j, q);
    }
  }
}
