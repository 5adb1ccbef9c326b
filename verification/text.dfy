/**
 Character-level string operations the chat system relies on: searching for
 a character or a token, ASCII lower-casing, removing a character, and
 splitting on a separator (with its inverse, joining).
 Strings are `seq<char>`; searches are ordinal.
 */
module Text {

  /** Concatenation of a sequence of strings, left to right. */
  function Flatten(ss: seq<string>): string
  {
    if |ss| == 0 then [] else ss[0] + Flatten(ss[1..])
  }

  lemma {:induction false} FlattenAppend(a: seq<string>, b: seq<string>)
    ensures Flatten(a + b) == Flatten(a) + Flatten(b)
    decreases |a|
  {
    if |a| == 0 {
      assert a + b == b;
    } else {
      assert (a + b)[1..] == a[1..] + b;
      FlattenAppend(a[1..], b);
    }
  }

  lemma FlattenCons(m: string, ms: seq<string>)
    ensures Flatten([m] + ms) == m + Flatten(ms)
  {
    assert ([m] + ms)[1..] == ms;
  }

  lemma FlattenSnoc(ms: seq<string>, m: string)
    ensures Flatten(ms + [m]) == Flatten(ms) + m
  {
    FlattenAppend(ms, [m]);
    assert Flatten([m]) == m;
  }

  /** Position of the first occurrence of `c` in `s`, or -1 when there is none
      (the behaviour of String.IndexOf(char)). */
  function IndexOf(s: string, c: char): (r: int)
    ensures -1 <= r < |s|
    ensures r < 0 <==> c !in s
    ensures 0 <= r ==> s[r] == c && c !in s[..r]
    decreases |s|
  {
    if |s| == 0 then -1
    else if s[0] == c then 0
    else
      var k := IndexOf(s[1..], c);
      assert s[1..][..if k < 0 then 0 else k] == s[1..if k < 0 then 1 else k + 1];
      if k < 0 then -1 else k + 1
  }

  /** The first occurrence is unique: any position holding `c` with no `c`
      before it is the one IndexOf reports. */
  lemma IndexOfIsFirst(s: string, c: char, k: nat)
    requires k < |s| && s[k] == c && c !in s[..k]
    ensures IndexOf(s, c) == k
  {
  }

  /** Number of occurrences of `c` in `s`. */
  function Count(s: string, c: char): nat
  {
    if |s| == 0 then 0 else (if s[0] == c then 1 else 0) + Count(s[1..], c)
  }

  lemma {:induction false} CountAppend(a: string, b: string, c: char)
    ensures Count(a + b, c) == Count(a, c) + Count(b, c)
    decreases |a|
  {
    if |a| == 0 {
      assert a + b == b;
    } else {
      assert (a + b)[1..] == a[1..] + b;
      CountAppend(a[1..], b, c);
    }
  }

  /** Counting around the first occurrence of `c` at position `k`. */
  lemma CountAt(s: string, k: nat, c: char)
    requires k < |s| && s[k] == c && c !in s[..k]
    ensures Count(s, c) == Count(s[k + 1..], c) + 1
  {
    assert s == s[..k] + [c] + s[k + 1..];
    CountAppend(s[..k] + [c], s[k + 1..], c);
    CountAppend(s[..k], [c], c);
    CountAbsent(s[..k], c);
  }

  lemma {:induction false} CountAbsent(s: string, c: char)
    requires c !in s
    ensures Count(s, c) == 0
    decreases |s|
  {
    if |s| > 0 {
      assert c !in s[1..];
      CountAbsent(s[1..], c);
    }
  }

  /** ASCII case folding: 'A'..'Z' map to 'a'..'z', everything else is kept. */
  function LowerChar(c: char): char
  {
    if 'A' <= c <= 'Z' then (c as int + 32) as char else c
  }

  /** Lower-cases every character; the length never changes. */
  function ToLower(s: string): (r: string)
    ensures |r| == |s|
    ensures forall i :: 0 <= i < |s| ==> r[i] == LowerChar(s[i])
  {
    seq(|s|, i requires 0 <= i < |s| => LowerChar(s[i]))
  }

  lemma ToLowerAppend(a: string, b: string)
    ensures ToLower(a + b) == ToLower(a) + ToLower(b)
  {
  }

  /** Lower-casing twice is lower-casing once. */
  lemma ToLowerIdempotent(s: string)
    ensures ToLower(ToLower(s)) == ToLower(s)
  {
  }

  /** `p` occurs in `s` starting at position `i`. */
  predicate OccursAt(s: string, p: string, i: int)
  {
    0 <= i && i + |p| <= |s| && s[i..i + |p|] == p
  }

  /** Position of the first occurrence of `p` in `s` at or after `k`, or -1. */
  function IndexOfFrom(s: string, p: string, k: nat): (r: int)
    requires k <= |s|
    ensures r == -1 || (k <= r && OccursAt(s, p, r))
    ensures r == -1 ==> forall i :: k <= i ==> !OccursAt(s, p, i)
    ensures 0 <= r ==> forall i :: k <= i < r ==> !OccursAt(s, p, i)
    decreases |s| - k
  {
    if k + |p| > |s| then -1
    else if s[k..k + |p|] == p then k
    else IndexOfFrom(s, p, k + 1)
  }

  /** Position of the first occurrence of the token `p` in `s`, or -1
      (ordinal search; .NET's String.IndexOf(string) compares by culture). */
  function IndexOfToken(s: string, p: string): int
  {
    IndexOfFrom(s, p, 0)
  }

  /** `s` contains the token `p` (String.Contains). */
  predicate Contains(s: string, p: string)
  {
    IndexOfToken(s, p) >= 0
  }

  lemma ContainsIff(s: string, p: string)
    ensures Contains(s, p) <==> exists i :: OccursAt(s, p, i)
  {
  }

  /** An occurrence of `p` with none before it is the one IndexOfToken reports. */
  lemma IndexOfTokenIsFirst(s: string, p: string, k: nat)
    requires OccursAt(s, p, k)
    requires forall i :: 0 <= i < k ==> !OccursAt(s, p, i)
    ensures IndexOfToken(s, p) == k
  {
  }

  /** A string that starts with `p` has its first occurrence of `p` at 0. */
  lemma PrefixToken(p: string, rest: string)
    ensures OccursAt(p + rest, p, 0)
    ensures IndexOfToken(p + rest, p) == 0
  {
    assert (p + rest)[0..|p|] == p;
  }

  /** One differing character rules an occurrence out. */
  lemma Mismatch(s: string, p: string, i: nat, j: nat)
    requires i + |p| <= |s| && j < |p| && s[i + j] != p[j]
    ensures !OccursAt(s, p, i)
  {
    assert s[i..i + |p|][j] == s[i + j];
  }

  /** An occurrence in a prefix or a suffix is an occurrence in the whole. */
  lemma OccursAtAppend(a: string, b: string, p: string, i: int)
    requires 0 <= i && i + |p| <= |a| + |b|
    ensures i + |p| <= |a| ==> (OccursAt(a + b, p, i) <==> OccursAt(a, p, i))
    ensures |a| <= i ==> (OccursAt(a + b, p, i) <==> OccursAt(b, p, i - |a|))
  {
    if i + |p| <= |a| {
      assert (a + b)[i..i + |p|] == a[i..i + |p|];
    }
    if |a| <= i {
      assert (a + b)[i..i + |p|] == b[i - |a|..i - |a| + |p|];
    }
  }

  /** Joining two texts with a character that `p` does not hold creates no
      occurrence of `p`. */
  lemma NotContainsAround(a: string, x: char, b: string, p: string)
    requires x !in p
    requires !Contains(a, p) && !Contains(b, p)
    ensures !Contains(a + [x] + b, p)
  {
    var s := a + [x] + b;
    assert s == a + ([x] + b);
    ContainsIff(a, p);
    ContainsIff(b, p);
    ContainsIff(s, p);
    forall i | 0 <= i && i + |p| <= |s|
      ensures !OccursAt(s, p, i)
    {
      if i + |p| <= |a| {
        OccursAtAppend(a, [x] + b, p, i);
      } else if |a| + 1 <= i {
        assert s == (a + [x]) + b;
        OccursAtAppend(a + [x], b, p, i);
      } else {
        assert s[i..i + |p|][|a| - i] == x;
      }
    }
  }

  /** Putting a character that does not start `p` in front creates no
      occurrence of `p`. */
  lemma NotContainsPrepend(x: char, b: string, p: string)
    requires |p| > 0 && p[0] != x
    requires !Contains(b, p)
    ensures !Contains([x] + b, p)
  {
    ContainsIff(b, p);
    ContainsIff([x] + b, p);
    forall i | 0 <= i && i + |p| <= |[x] + b|
      ensures !OccursAt([x] + b, p, i)
    {
      if i > 0 {
        OccursAtAppend([x], b, p, i);
      } else {
        assert ([x] + b)[0..|p|][0] == x;
      }
    }
  }

  /** A text that does not contain `p` does not contain any extension of it. */
  lemma NotContainsExtension(s: string, p: string, q: string)
    requires !Contains(s, p)
    ensures !Contains(s, p + q)
  {
    ContainsIff(s, p);
    ContainsIff(s, p + q);
    forall i | 0 <= i && i + |p + q| <= |s|
      ensures !OccursAt(s, p + q, i)
    {
      var w := s[i..i + |p + q|];
      assert !OccursAt(s, p, i);
      assert w[..|p|] == s[i..i + |p|] != p;
      assert (p + q)[..|p|] == p;
    }
  }

  /** Removes every occurrence of `c`, keeping the other characters in order
      (String.Replace with an empty replacement). */
  function RemoveAll(s: string, c: char): (r: string)
    ensures c !in r
    ensures forall i :: 0 <= i < |r| ==> r[i] in s
    decreases |s|
  {
    if |s| == 0 then []
    else if s[0] == c then RemoveAll(s[1..], c)
    else [s[0]] + RemoveAll(s[1..], c)
  }

  lemma {:induction false} RemoveAllAppend(a: string, b: string, c: char)
    ensures RemoveAll(a + b, c) == RemoveAll(a, c) + RemoveAll(b, c)
    decreases |a|
  {
    if |a| == 0 {
      assert a + b == b;
    } else {
      assert (a + b)[1..] == a[1..] + b;
      RemoveAllAppend(a[1..], b, c);
    }
  }

  lemma {:induction false} RemoveAllAbsent(s: string, c: char)
    requires c !in s
    ensures RemoveAll(s, c) == s
    decreases |s|
  {
    if |s| > 0 {
      assert c !in s[1..];
      RemoveAllAbsent(s[1..], c);
      assert s == [s[0]] + s[1..];
    }
  }

  /** Joins the parts with one separator between neighbours (String.Join). */
  function Join(parts: seq<string>, sep: char): string
  {
    if |parts| == 0 then []
    else if |parts| == 1 then parts[0]
    else parts[0] + [sep] + Join(parts[1..], sep)
  }

  /** Text appended to a join belongs to its last part. */
  lemma {:induction false} JoinAppendLast(parts: seq<string>, sep: char, x: string)
    requires |parts| >= 1
    ensures Join(parts, sep) + x == Join(parts[..|parts| - 1] + [parts[|parts| - 1] + x], sep)
    decreases |parts|
  {
    var n := |parts|;
    var moved := parts[..n - 1] + [parts[n - 1] + x];
    if n > 1 {
      JoinAppendLast(parts[1..], sep, x);
      assert moved[1..] == parts[1..][..n - 2] + [parts[1..][n - 2] + x];
      assert moved[0] == parts[0];
    }
  }

  /** Splits `s` at every `sep`, dropping the separators; the result always has
      one more element than `s` has separators (String.Split(char)). */
  function Split(s: string, sep: char): (r: seq<string>)
    ensures |r| >= 1
    ensures forall i :: 0 <= i < |r| ==> sep !in r[i]
    ensures Join(r, sep) == s
    decreases |s|
  {
    var k := IndexOf(s, sep);
    if k < 0 then [s]
    else
      var tail := Split(s[k + 1..], sep);
      SplitStep(s, k, sep, tail);
      [s[..k]] + tail
  }

  lemma SplitStep(s: string, k: nat, sep: char, tail: seq<string>)
    requires k < |s| && s[k] == sep && sep !in s[..k]
    requires |tail| >= 1 && Join(tail, sep) == s[k + 1..]
    requires forall i :: 0 <= i < |tail| ==> sep !in tail[i]
    ensures Join([s[..k]] + tail, sep) == s
    ensures forall i :: 0 <= i < |tail| + 1 ==> sep !in ([s[..k]] + tail)[i]
  {
    var r := [s[..k]] + tail;
    assert r[1..] == tail;
    assert s == s[..k] + [sep] + s[k + 1..];
    forall i | 0 < i < |r|
      ensures sep !in r[i]
    {
      assert r[i] == tail[i - 1];
    }
  }

  lemma {:induction false} SplitLength(s: string, sep: char)
    ensures |Split(s, sep)| == Count(s, sep) + 1
    decreases |s|
  {
    var k := IndexOf(s, sep);
    if k < 0 {
      CountAbsent(s, sep);
    } else {
      SplitLength(s[k + 1..], sep);
      CountAt(s, k, sep);
    }
  }

  /** Splitting undoes joining when no part holds the separator. */
  lemma {:induction false} SplitJoin(parts: seq<string>, sep: char)
    requires |parts| >= 1
    requires forall i :: 0 <= i < |parts| ==> sep !in parts[i]
    ensures Split(Join(parts, sep), sep) == parts
    decreases |parts|
  {
    var s := Join(parts, sep);
    if |parts| > 1 {
      var head, tail := parts[0], parts[1..];
      var rest := Join(tail, sep);
      assert s == head + [sep] + rest;
      var k := |head|;
      assert s[..k] == head;
      assert s[k + 1..] == rest;
      IndexOfIsFirst(s, sep, k);
      SplitJoin(tail, sep);
      assert Split(s, sep) == [head] + Split(rest, sep);
      assert parts == [head] + tail;
    }
  }
}
