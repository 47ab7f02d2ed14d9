/** The few JavaScript string facilities the cookie service relies on:
    `indexOf`, `split` with a one-character separator, the `replace(/^ /, '')`
    trim, the regular-expression classes `\s` and "line terminator", and the
    values a call can complete with (a value, `undefined`, or a throw). */
module JsText {

  datatype Option<+T> = None | Some(value: T)

  /** How a JavaScript call completes: with a value, with `undefined`, or by
      throwing an exception through its caller. */
  datatype Completion<+T> = Normal(value: T) | Undefined | Throw

  /** `s.indexOf(c)`, with "not found" reported as `|s|`. */
  function IndexOf(s: string, c: char): (i: nat)
    ensures i <= |s|
    ensures i < |s| ==> s[i] == c
    ensures forall k :: 0 <= k < i ==> s[k] != c
  {
    if s == [] then 0
    else if s[0] == c then 0
    else 1 + IndexOf(s[1..], c)
  }

  /** `s.split(sep)`: the pieces between the separators, in order. There is
      always at least one piece (`"".split(";")` is `[""]`). */
  function Split(s: string, sep: char): (parts: seq<string>)
    ensures |parts| >= 1
    ensures forall k :: 0 <= k < |parts| ==> sep !in parts[k]
    decreases |s|
  {
    var i := IndexOf(s, sep);
    if i == |s| then [s] else [s[..i]] + Split(s[i + 1..], sep)
  }

  /** `parts.join(sep)`, the inverse of Split. */
  function Join(parts: seq<string>, sep: char): string
    requires |parts| >= 1
    decreases |parts|
  {
    if |parts| == 1 then parts[0] else parts[0] + [sep] + Join(parts[1..], sep)
  }

  lemma {:induction false} JoinSplit(s: string, sep: char)
    ensures Join(Split(s, sep), sep) == s
    decreases |s|
  {
    var i := IndexOf(s, sep);
    if i < |s| {
      var head, rest := s[..i], s[i + 1..];
      var parts := Split(s, sep);
      assert parts == [head] + Split(rest, sep);
      assert Join(parts, sep) == head + [sep] + Join(Split(rest, sep), sep) by {
        assert parts[0] == head && parts[1..] == Split(rest, sep);
      }
      assert Join(Split(rest, sep), sep) == rest by { JoinSplit(rest, sep); }
      assert s == head + [sep] + rest;
    }
  }

  lemma {:induction false} SplitJoin(parts: seq<string>, sep: char)
    requires |parts| >= 1
    requires forall k :: 0 <= k < |parts| ==> sep !in parts[k]
    ensures Split(Join(parts, sep), sep) == parts
    decreases |parts|
  {
    if |parts| == 1 {
      assert forall k :: 0 <= k < |parts[0]| ==> parts[0][k] != sep;
    } else {
      var first, rest := parts[0], Join(parts[1..], sep);
      assert Join(parts, sep) == first + [sep] + rest;
      assert Split(first + [sep] + rest, sep) == [first] + Split(rest, sep) by {
        SplitCons(first, rest, sep);
      }
      assert Split(rest, sep) == parts[1..] by { SplitJoin(parts[1..], sep); }
      ConsTail(parts);
    }
  }

  /** A piece without the separator, followed by the separator, is the
      first piece of the split. */
  lemma SplitCons(first: string, s: string, sep: char)
    requires sep !in first
    ensures Split(first + [sep] + s, sep) == [first] + Split(s, sep)
  {
    var t := first + [sep] + s;
    assert t == first + ([sep] + s);
    IndexOfAfterFree(first, [sep] + s, sep);
    assert IndexOf([sep] + s, sep) == 0;
    assert t[..|first|] == first;
    assert t[|first| + 1..] == s;
  }

  /** Text without the separator, put in front of a string, joins its
      first piece. */
  lemma SplitPrefix(pre: string, s: string, sep: char)
    requires sep !in pre
    ensures Split(pre + s, sep) == [pre + Split(s, sep)[0]] + Split(s, sep)[1..]
  {
    var t := pre + s;
    var i := IndexOf(s, sep);
    assert IndexOf(t, sep) == |pre| + i by { IndexOfAfterFree(pre, s, sep); }
    if i < |s| {
      var tail := Split(s[i + 1..], sep);
      assert t[..|pre| + i] == pre + s[..i];
      assert t[|pre| + i + 1..] == s[i + 1..];
      assert Split(t, sep) == [pre + s[..i]] + tail;
      assert Split(s, sep) == [s[..i]] + tail;
      assert Split(s, sep)[1..] == tail;
    } else {
      assert Split(t, sep) == [t];
      assert Split(s, sep) == [s];
      assert [t] == [pre + s] + [s][1..];
    }
  }

  /** The first `c` of `a + b` is that of `b` when `a` holds none. */
  lemma {:induction false} IndexOfAfterFree(a: string, b: string, c: char)
    requires c !in a
    ensures IndexOf(a + b, c) == |a| + IndexOf(b, c)
    decreases |a|
  {
    if a == [] {
      assert a + b == b;
    } else {
      assert (a + b)[0] == a[0] && a[0] != c;
      assert (a + b)[1..] == a[1..] + b;
      IndexOfAfterFree(a[1..], b, c);
    }
  }

  /** `s.replace(/^ /, '')`: one leading space removed, nothing else. */
  function StripLeadingSpace(s: string): (r: string)
    ensures if s != [] && s[0] == ' ' then s == [' '] + r else r == s
  {
    if s != [] && s[0] == ' ' then s[1..] else s
  }

  /** The characters ECMAScript calls LineTerminator; `.` in a pattern does
      not match them. */
  predicate IsLineTerminator(c: char) {
    c == '\n' || c == '\r' || c == '\U{2028}' || c == '\U{2029}'
  }

  /** The characters `\s` matches in an ECMAScript pattern: WhiteSpace
      (tab, vertical tab, form feed, space, no-break space, byte order mark
      and the other space separators) and the line terminators. */
  predicate IsWhiteSpace(c: char) {
    || c == '\t' || c == '\U{000B}' || c == '\U{000C}' || c == ' '
    || c == '\U{00A0}' || c == '\U{FEFF}' || c == '\U{1680}'
    || ('\U{2000}' <= c <= '\U{200A}')
    || c == '\U{202F}' || c == '\U{205F}' || c == '\U{3000}'
    || IsLineTerminator(c)
  }

  // ---------------------------------------------------------------------
  // Regrouping concatenations, stated once for any element type

  lemma ConsTail<T>(s: seq<T>)
    requires s != []
    ensures s == [s[0]] + s[1..]
  {
  }

  lemma ConsSnoc<T>(items: seq<T>, x: T)
    requires items != []
    ensures items + [x] == [items[0]] + (items[1..] + [x])
  {
  }

  lemma SnocRegroups<T>(a: seq<T>, b: seq<T>, x: T)
    ensures a + b + [x] == a + (b + [x])
  {
  }

  lemma ConcatRegroups<T>(a: seq<T>, b: seq<T>, c: seq<T>, d: seq<T>)
    ensures a + (b + c + d) == a + b + c + d
  {
  }

  lemma Regroup6<T>(a: seq<T>, b: seq<T>, c: seq<T>, d: seq<T>, e: seq<T>, f: seq<T>)
    ensures a + (b + (c + (d + (e + f)))) == a + b + c + d + e + f
  {
  }
}
