/** The small part of the JavaScript string library that the site script relies on:
    `trim`, the `\s` and `\d` character classes, `replace(/[...]/g, '')` as a
    character filter, `includes`, and the first and last piece of `split`. */
module JsText {

  datatype Option<T> = None | Some(value: T) {
    /** JavaScript's `x || fallback` for a value that may be absent. */
    function GetOr(fallback: T): T {
      if Some? then value else fallback
    }
  }

  /** The code points JavaScript counts as WhiteSpace or LineTerminator: exactly
      what `String.prototype.trim` strips and what the regular expression class
      `\s` matches. */
  predicate IsSpace(c: char) {
    c == '\t' || c == '\n' || c == '\U{000B}' || c == '\U{000C}' || c == '\r' ||
    c == ' ' || c == '\U{00A0}' || c == '\U{1680}' ||
    ('\U{2000}' <= c <= '\U{200A}') ||
    c == '\U{2028}' || c == '\U{2029}' || c == '\U{202F}' || c == '\U{205F}' ||
    c == '\U{3000}' || c == '\U{FEFF}'
  }

  /** The regular expression class `\d`: the ASCII digits only. */
  predicate IsDigit(c: char) {
    '0' <= c <= '9'
  }

  predicate AllSpace(s: string) {
    forall i :: 0 <= i < |s| ==> IsSpace(s[i])
  }

  /** Leading white space removed. */
  function TrimStart(s: string): string {
    if s != [] && IsSpace(s[0]) then TrimStart(s[1..]) else s
  }

  /** What `TrimStart` leaves is a suffix of `s` that does not start with white
      space, and what it removes is all white space. */
  lemma {:induction false} TrimStartSpec(s: string)
    ensures var r := TrimStart(s);
      |r| <= |s| && r == s[|s| - |r|..] &&
      (r == [] || !IsSpace(r[0])) &&
      AllSpace(s[..|s| - |r|])
  {
    if s != [] && IsSpace(s[0]) {
      TrimStartSpec(s[1..]);
      var r := TrimStart(s);
      assert s[..|s| - |r|] == [s[0]] + s[1..][..|s| - 1 - |r|];
    }
  }

  /** Trailing white space removed. */
  function TrimEnd(s: string): string {
    if s != [] && IsSpace(s[|s| - 1]) then TrimEnd(s[..|s| - 1]) else s
  }

  /** What `TrimEnd` leaves is a prefix of `s` that does not end with white
      space, and what it removes is all white space. */
  lemma {:induction false} TrimEndSpec(s: string)
    ensures var r := TrimEnd(s);
      |r| <= |s| && r == s[..|r|] &&
      (r == [] || !IsSpace(r[|r| - 1])) &&
      AllSpace(s[|r|..])
  {
    if s != [] && IsSpace(s[|s| - 1]) {
      TrimEndSpec(s[..|s| - 1]);
      var r := TrimEnd(s);
      assert s[|r|..] == s[..|s| - 1][|r|..] + [s[|s| - 1]];
    }
  }

  /** `String.prototype.trim`. */
  function Trim(s: string): string {
    TrimEnd(TrimStart(s))
  }

  /** A value is empty after trimming exactly when every character of it is white space. */
  lemma TrimEmptyIff(s: string)
    ensures Trim(s) == [] <==> AllSpace(s)
  {
    var t := TrimStart(s);
    TrimStartSpec(s);
    TrimEndSpec(t);
    if Trim(s) == [] {
      assert s == s[..|s| - |t|] + t;
      assert AllSpace(t) by { assert t[|TrimEnd(t)|..] == t; }
    } else {
      assert t != [] && !IsSpace(t[0]);
      assert t[0] == s[|s| - |t|];
    }
  }

  /** Trimming keeps every character that is not white space, so it never drops
      a digit or any other visible character. */
  lemma TrimKeepsNonSpace(s: string, i: nat)
    requires i < |s| && !IsSpace(s[i])
    ensures s[i] in Trim(s)
  {
    var t := TrimStart(s);
    TrimStartSpec(s);
    var k := i - (|s| - |t|);
    assert 0 <= k < |t| && t[k] == s[i];
    var u := TrimEnd(t);
    TrimEndSpec(t);
    assert u[k] == s[i];
  }

  /** `s.replace(/[^X]/g, '')` for a character class X: the characters of `s`
      that satisfy `p`, in their original order. */
  function Keep(s: string, p: char -> bool): (r: string)
    ensures |r| <= |s|
    ensures forall i :: 0 <= i < |r| ==> p(r[i])
  {
    if s == [] then []
    else (if p(s[0]) then [s[0]] else []) + Keep(s[1..], p)
  }

  lemma {:induction false} KeepConcat(a: string, b: string, p: char -> bool)
    ensures Keep(a + b, p) == Keep(a, p) + Keep(b, p)
  {
    if a != [] {
      var head := if p(a[0]) then [a[0]] else [];
      assert (a + b)[0] == a[0] && (a + b)[1..] == a[1..] + b;
      assert Keep(a + b, p) == head + Keep(a[1..] + b, p);
      KeepConcat(a[1..], b, p);
      assert Keep(a, p) == head + Keep(a[1..], p);
    } else {
      assert a + b == b;
    }
  }

  /** Filtering a string all of whose characters pass changes nothing. */
  lemma {:induction false} KeepAll(s: string, p: char -> bool)
    requires forall i :: 0 <= i < |s| ==> p(s[i])
    ensures Keep(s, p) == s
  {
    if s != [] { KeepAll(s[1..], p); }
  }

  /** Filtering a string none of whose characters pass leaves nothing. */
  lemma {:induction false} KeepNone(s: string, p: char -> bool)
    requires forall i :: 0 <= i < |s| ==> !p(s[i])
    ensures Keep(s, p) == []
  {
    if s != [] { KeepNone(s[1..], p); }
  }

  /** `t` occurs in `s` starting at index `i`. */
  predicate OccursAt(s: string, t: string, i: int) {
    0 <= i <= |s| - |t| && s[i..i + |t|] == t
  }

  /** `s.includes(t)`: `t` occurs somewhere in `s` as a contiguous piece. */
  function Includes(s: string, t: string): (r: bool)
    ensures r <==> exists i :: OccursAt(s, t, i)
  {
    if |t| > |s| then false
    else if s[..|t|] == t then assert OccursAt(s, t, 0); true
    else
      var r' := Includes(s[1..], t);
      assert r' ==> exists i :: OccursAt(s, t, i) by {
        if r' {
          var i :| OccursAt(s[1..], t, i);
          assert s[i + 1..i + 1 + |t|] == s[1..][i..i + |t|];
          assert OccursAt(s, t, i + 1);
        }
      }
      assert (exists i :: OccursAt(s, t, i)) ==> r' by {
        if exists i :: OccursAt(s, t, i) {
          var i :| OccursAt(s, t, i);
          assert i != 0;
          assert s[1..][i - 1..i - 1 + |t|] == s[i..i + |t|];
          assert OccursAt(s[1..], t, i - 1);
        }
      }
      r'
  }

  /** `s.split(sep)[0]`: the part of `s` before the first `sep`, or all of `s`. */
  function BeforeFirst(s: string, sep: char): string {
    if s == [] || s[0] == sep then [] else [s[0]] + BeforeFirst(s[1..], sep)
  }

  /** `BeforeFirst` gives the longest prefix free of `sep`: either all of `s` or
      the prefix that a `sep` ends. */
  lemma {:induction false} BeforeFirstSpec(s: string, sep: char)
    ensures var r := BeforeFirst(s, sep);
      |r| <= |s| && r == s[..|r|] && sep !in r &&
      (|r| < |s| ==> s[|r|] == sep)
  {
    if s != [] && s[0] != sep {
      BeforeFirstSpec(s[1..], sep);
    }
  }

  /** `s.split(sep).pop()`: the part of `s` after the last `sep`, or all of `s`. */
  function AfterLast(s: string, sep: char): string {
    if s == [] || s[|s| - 1] == sep then [] else AfterLast(s[..|s| - 1], sep) + [s[|s| - 1]]
  }

  /** `AfterLast` gives the longest suffix free of `sep`: either all of `s` or
      the suffix that a `sep` starts. */
  lemma {:induction false} AfterLastSpec(s: string, sep: char)
    ensures var r := AfterLast(s, sep);
      |r| <= |s| && r == s[|s| - |r|..] && sep !in r &&
      (|r| < |s| ==> s[|s| - |r| - 1] == sep)
  {
    if s != [] && s[|s| - 1] != sep {
      AfterLastSpec(s[..|s| - 1], sep);
    }
  }

  /** The piece before the first separator of `head + [sep] + tail` is `head`
      when `head` holds no separator. */
  lemma {:induction false} BeforeFirstOfJoin(head: string, sep: char, tail: string)
    requires sep !in head
    ensures BeforeFirst(head + [sep] + tail, sep) == head
  {
    var s := head + [sep] + tail;
    if head != [] {
      assert s[0] == head[0] && s[1..] == head[1..] + [sep] + tail;
      BeforeFirstOfJoin(head[1..], sep, tail);
      assert head == [head[0]] + head[1..];
    }
  }

  /** The piece after the last separator of `dir + [sep] + name` is `name` when
      `name` holds no separator. */
  lemma {:induction false} AfterLastOfJoin(dir: string, sep: char, name: string)
    requires sep !in name
    ensures AfterLast(dir + [sep] + name, sep) == name
  {
    var s := dir + [sep] + name;
    if name != [] {
      var last := |name| - 1;
      assert s[|s| - 1] == name[last] && s[..|s| - 1] == dir + [sep] + name[..last];
      AfterLastOfJoin(dir, sep, name[..last]);
      assert name == name[..last] + [name[last]];
    }
  }
}
