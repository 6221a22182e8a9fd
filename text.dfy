/** String helpers used by the portal: Python's `str.strip()`, `str.lower()`
    (ASCII case mapping, as SQLite's LOWER does), and `email_domain`. */
module Text {

  /** Python's `str.isspace()` for a single code point. */
  predicate IsSpace(c: char)
  {
    var n := c as int;
    n == 32 || 9 <= n <= 13 || 28 <= n <= 31 || n == 0x85 || n == 0xA0 || n == 0x1680 ||
    0x2000 <= n <= 0x200A || n == 0x2028 || n == 0x2029 || n == 0x202F || n == 0x205F || n == 0x3000
  }

  predicate IsUpper(c: char) { 'A' <= c <= 'Z' }

  function LowerChar(c: char): (r: char)
    ensures !IsUpper(r)
    ensures IsSpace(r) <==> IsSpace(c)
    ensures !IsUpper(c) ==> r == c
    ensures IsUpper(c) ==> 'a' <= r <= 'z' && r as int == c as int + 32
  {
    if IsUpper(c) then (c as int + 32) as char else c
  }

  /** `s.lower()` restricted to ASCII letters. */
  function Lower(s: string): (r: string)
    ensures |r| == |s|
    ensures forall i :: 0 <= i < |s| ==> r[i] == LowerChar(s[i])
  {
    if s == [] then [] else [LowerChar(s[0])] + Lower(s[1..])
  }

  predicate IsLower(s: string) { forall i :: 0 <= i < |s| ==> !IsUpper(s[i]) }

  lemma LowerIsLower(s: string)
    ensures IsLower(Lower(s))
    ensures IsLower(s) <==> Lower(s) == s
  {
    if IsLower(s) {
      assert forall i :: 0 <= i < |s| ==> Lower(s)[i] == s[i];
    }
  }

  /** `s.lstrip()` */
  function StripLeft(s: string): (r: string)
    ensures |r| <= |s| && r == s[|s| - |r|..]
    ensures r == [] || !IsSpace(r[0])
    ensures forall i :: 0 <= i < |s| - |r| ==> IsSpace(s[i])
  {
    if s != [] && IsSpace(s[0]) then StripLeft(s[1..]) else s
  }

  /** `s.rstrip()` */
  function StripRight(s: string): (r: string)
    ensures |r| <= |s| && r == s[..|r|]
    ensures r == [] || !IsSpace(r[|r| - 1])
    ensures forall i :: |r| <= i < |s| ==> IsSpace(s[i])
  {
    if s != [] && IsSpace(s[|s| - 1]) then StripRight(s[..|s| - 1]) else s
  }

  /** `s.strip()`: white space removed from both ends. */
  function Strip(s: string): (r: string)
    ensures |r| <= |s|
    ensures r == [] || (!IsSpace(r[0]) && !IsSpace(r[|r| - 1]))
  {
    var left := StripLeft(s);
    var r := StripRight(left);
    assert r != [] ==> r[0] == left[0];
    r
  }

  /** What `Strip` keeps is a slice of its input, and what it cuts off on either
      side is white space. */
  lemma StripIsSlice(s: string)
    ensures var r := Strip(s);
            exists k :: 0 <= k <= |s| && r <= s[k..] &&
                        (forall i :: 0 <= i < k ==> IsSpace(s[i])) &&
                        (forall i :: k + |r| <= i < |s| ==> IsSpace(s[i]))
  {
    var left := StripLeft(s);
    var k := |s| - |left|;
    assert Strip(s) <= s[k..];
  }

  lemma StripNoEdgeSpaces(s: string)
    requires s == [] || (!IsSpace(s[0]) && !IsSpace(s[|s| - 1]))
    ensures Strip(s) == s
  {
  }

  /** The normalisation applied to every e-mail a request carries: `email.strip().lower()`. */
  function Normalize(email: string): (r: string)
    ensures IsLower(r)
  {
    LowerIsLower(Strip(email));
    Lower(Strip(email))
  }

  /** Normalising twice is normalising once, so the handlers that normalise an
      address and then hand it to the override check (which normalises again)
      see the same address as the override's own login route. */
  lemma {:induction false} NormalizeIdempotent(email: string)
    ensures Normalize(Normalize(email)) == Normalize(email)
  {
    var n := Normalize(email);
    var t := Strip(email);
    assert n == Lower(t);
    if n != [] {
      assert n[0] == LowerChar(t[0]) && n[|n| - 1] == LowerChar(t[|t| - 1]);
    }
    StripNoEdgeSpaces(n);
    LowerIsLower(n);
  }

  /** Everything after the last occurrence of `c`, or all of `s` when `c` does not
      occur: the last element of Python's `s.split(c)`. */
  function AfterLast(s: string, c: char): (r: string)
    ensures |r| <= |s| && r == s[|s| - |r|..]
    ensures c !in r
    ensures c in s ==> |r| < |s| && s[|s| - |r| - 1] == c
    ensures c !in s ==> r == s
  {
    if s == [] then []
    else if s[|s| - 1] == c then []
    else
      var r := AfterLast(s[..|s| - 1], c) + [s[|s| - 1]];
      assert s == s[..|s| - 1] + [s[|s| - 1]];
      r
  }

  /** Lowering never introduces a character that is not a small letter. */
  lemma LowerKeepsOut(s: string, c: char)
    requires c !in s && !('a' <= c <= 'z')
    ensures c !in Lower(s)
  {
    forall i | 0 <= i < |s| ensures Lower(s)[i] != c {
      assert Lower(s)[i] == LowerChar(s[i]);
    }
  }

  /** Stripping keeps only characters of its input. */
  lemma StripKeepsOut(s: string, c: char)
    requires c !in s
    ensures c !in Strip(s)
  {
    var left := StripLeft(s);
    forall i | 0 <= i < |left| ensures left[i] != c {
      assert left[i] == s[|s| - |left| + i];
    }
    var r := StripRight(left);
    forall i | 0 <= i < |r| ensures r[i] != c {
      assert r[i] == left[i];
    }
  }

  /** `email_domain`: the lower-cased, stripped text after the last `@`, or the
      empty string when there is no `@`. */
  function EmailDomain(email: string): (r: string)
    ensures '@' !in email ==> r == ""
    ensures '@' !in r
  {
    if '@' in email then
      var d := Lower(AfterLast(email, '@'));
      LowerKeepsOut(AfterLast(email, '@'), '@');
      StripKeepsOut(d, '@');
      Strip(d)
    else ""
  }

  /** The text after the last `c` of `a + [c] + b` is `b` when `b` holds no `c`. */
  lemma {:induction false} AfterLastOfSplit(a: string, c: char, b: string)
    requires c !in b
    ensures AfterLast(a + [c] + b, c) == b
  {
    var s := a + [c] + b;
    if b != [] {
      assert s[..|s| - 1] == a + [c] + b[..|b| - 1];
      AfterLastOfSplit(a, c, b[..|b| - 1]);
      assert b == b[..|b| - 1] + [b[|b| - 1]];
    }
  }

  /** For an address written as `local@domain` whose domain part has no `@`,
      the domain is the lower-cased, stripped domain part, whatever the local part is. */
  lemma EmailDomainOfAddress(local: string, domain: string)
    requires '@' !in domain
    ensures EmailDomain(local + "@" + domain) == Strip(Lower(domain))
  {
    var s := local + "@" + domain;
    assert s[|local|] == '@';
    AfterLastOfSplit(local, '@', domain);
  }

  // ---------------------------------------------------------------- case

  /** Two texts that differ at most in the case of ASCII letters. */
  predicate SameIgnoringCase(a: string, b: string)
  {
    |a| == |b| && forall i :: 0 <= i < |a| ==> LowerChar(a[i]) == LowerChar(b[i])
  }

  /** Texts equal up to case lower to the same text. */
  lemma LowerIgnoresCase(a: string, b: string)
    requires SameIgnoringCase(a, b)
    ensures Lower(a) == Lower(b)
  {
    assert forall i :: 0 <= i < |a| ==> Lower(a)[i] == Lower(b)[i];
  }

  /** Dropping the first character keeps two texts equal up to case. */
  lemma SameIgnoringCaseTail(a: string, b: string)
    requires SameIgnoringCase(a, b) && a != []
    ensures SameIgnoringCase(a[1..], b[1..]) && SameIgnoringCase(a[..|a| - 1], b[..|b| - 1])
    ensures IsSpace(a[0]) <==> IsSpace(b[0])
    ensures IsSpace(a[|a| - 1]) <==> IsSpace(b[|b| - 1])
  {
    assert LowerChar(a[0]) == LowerChar(b[0]);
    assert LowerChar(a[|a| - 1]) == LowerChar(b[|b| - 1]);
    forall i | 0 <= i < |a| - 1 ensures LowerChar(a[1..][i]) == LowerChar(b[1..][i]) {
      assert a[1..][i] == a[i + 1] && b[1..][i] == b[i + 1];
    }
  }

  /** Letter case does not change where white space is, so `lstrip` cuts texts
      equal up to case at the same place. */
  lemma {:induction false} StripLeftIgnoresCase(a: string, b: string)
    requires SameIgnoringCase(a, b)
    ensures SameIgnoringCase(StripLeft(a), StripLeft(b))
  {
    if a != [] {
      SameIgnoringCaseTail(a, b);
      if IsSpace(a[0]) {
        StripLeftIgnoresCase(a[1..], b[1..]);
      }
    }
  }

  /** The same for `rstrip`. */
  lemma {:induction false} StripRightIgnoresCase(a: string, b: string)
    requires SameIgnoringCase(a, b)
    ensures SameIgnoringCase(StripRight(a), StripRight(b))
  {
    if a != [] {
      SameIgnoringCaseTail(a, b);
      if IsSpace(a[|a| - 1]) {
        StripRightIgnoresCase(a[..|a| - 1], b[..|b| - 1]);
      }
    }
  }

  /** Addresses that differ only in the case of ASCII letters normalise to the same
      address: this is what makes the e-mail comparisons of the portal case-insensitive. */
  lemma NormalizeIgnoresCase(a: string, b: string)
    requires SameIgnoringCase(a, b)
    ensures Normalize(a) == Normalize(b)
  {
    StripLeftIgnoresCase(a, b);
    StripRightIgnoresCase(StripLeft(a), StripLeft(b));
    LowerIgnoresCase(Strip(a), Strip(b));
  }
}
