/** The C strings of student-distrib/lib.c: bytes up to a NUL. */
module CStrings {
  import opened Basics
  import opened Bytes

  // A C string held in at most n bytes: up to its NUL, or all n.
  function Name(text: seq<byte>, n: nat): (name: seq<byte>)
    ensures |name| <= n && NUL !in name
  {
    if n == 0 || text == [] || text[0] == NUL then [] else [text[0]] + Name(text[1..], n - 1)
  }

  lemma {:induction false} NamesDiffer(a: seq<byte>, b: seq<byte>, n: nat, i: nat)
    requires i < n && i < |a| && i < |b| && a[..i] == b[..i] && NUL !in a[..i]
    ensures a[i] != b[i] ==> Name(a, n) != Name(b, n)
    ensures a[i] == b[i] == NUL ==> Name(a, n) == Name(b, n)
  {
    if i > 0 {
      assert a[0] == a[..i][0] && b[0] == b[..i][0];
      assert a[1..][..i - 1] == a[..i][1..] && b[1..][..i - 1] == b[..i][1..];
      NamesDiffer(a[1..], b[1..], n - 1, i - 1);
      assert a[0] != NUL && b[0] == a[0];
      assert Name(a, n) == [a[0]] + Name(a[1..], n - 1) && Name(b, n) == [a[0]] + Name(b[1..], n - 1);
      assert Name(a, n) == Name(b, n) ==> Name(a, n)[1..] == Name(b, n)[1..];
    } else {
      assert a[0] != NUL ==> Name(a, n)[0] == a[0];
      assert b[0] != NUL ==> Name(b, n)[0] == b[0];
    }
  }

  lemma {:induction false} NamesSame(a: seq<byte>, b: seq<byte>, n: nat)
    requires n <= |a| && n <= |b| && a[..n] == b[..n]
    ensures Name(a, n) == Name(b, n)
  {
    if n == 0 {
    } else {
      assert a[0] == a[..n][0] == b[..n][0] == b[0];
      assert a[1..][..n - 1] == a[..n][1..] && b[1..][..n - 1] == b[..n][1..];
      NamesSame(a[1..], b[1..], n - 1);
    }
  }

  // Whether reading up to n bytes of the string stays inside it.
  ghost predicate Bounded(text: seq<byte>, n: nat) {
    n <= |text| || NUL in text
  }

  /** Zero exactly when the two strings agree on their first n characters. */
  method Strncmp(s1: seq<byte>, s2: seq<byte>, n: nat) returns (r: int)
    requires Bounded(s1, n) && Bounded(s2, n)
    ensures r == 0 <==> Name(s1, n) == Name(s2, n)
  {
    var i: nat := 0;
    while i < n
      invariant i <= n && i <= |s1| && i <= |s2|
      invariant s1[..i] == s2[..i] && NUL !in s1[..i]
    {
      assert s1[..|s1|] == s1 && s2[..|s2|] == s2;
      NamesDiffer(s1, s2, n, i);
      if s1[i] != s2[i] || s1[i] == NUL {
        return s1[i] as int - s2[i] as int;
      }
      i := i + 1;
    }
    NamesSame(s1, s2, n);
    r := 0;
  }

  // Length of a C string; a name field with no NUL counts as full, for its length is clamped to the field anyway.
  method Strlen(text: seq<byte>) returns (len: nat)
    ensures len == |Name(text, |text|)|
  {
    len := 0;
    while len < |text| && text[len] != NUL
      invariant len <= |text|
      invariant |Name(text, |text|)| == len + |Name(text[len..], |text| - len)|
    {
      assert text[len..][1..] == text[len + 1..];
      len := len + 1;
    }
  }

  lemma {:induction false} NameLength(text: seq<byte>, n: nat)
    ensures |Name(text, n)| == Min(n, |Name(text, |text|)|)
  {
    if n == 0 || text == [] || text[0] == NUL {
    } else {
      NameLength(text[1..], n - 1);
    }
  }

  // A text that a NUL follows is the name it spells.
  lemma {:induction false} NameUpTo(s: seq<byte>, n: nat, text: seq<byte>)
    requires |text| < n && |text| < |s| && s[..|text|] == text && NUL !in text && s[|text|] == NUL
    ensures Name(s, n) == text
  {
    if text == [] {
    } else {
      assert s[0] == s[..|text|][0] == text[0];
      assert s[1..][..|text| - 1] == s[..|text|][1..] == text[1..];
      NameUpTo(s[1..], n - 1, text[1..]);
    }
  }

  lemma {:induction false} NamePrefix(text: seq<byte>, n: nat)
    ensures |Name(text, n)| <= |text| && Name(text, n) == text[..|Name(text, n)|]
  {
    if n == 0 || text == [] || text[0] == NUL {
    } else {
      NamePrefix(text[1..], n - 1);
    }
  }
}
