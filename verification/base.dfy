/** Optional values: the model's stand-in for JavaScript's `undefined`. */
module Options {
  datatype Option<+T> = None | Some(value: T)
}

/** Character classes and the ASCII case mapping used by the text normaliser. */
module Chars {

  /** `[aeiou]` of the stemmer's regular expressions. */
  predicate IsVowel(c: char) {
    c == 'a' || c == 'e' || c == 'i' || c == 'o' || c == 'u'
  }

  /** `[aeiouy]`: a letter that may start a vowel run. */
  predicate IsVowelOrY(c: char) {
    IsVowel(c) || c == 'y'
  }

  predicate IsUpper(c: char) {
    'A' <= c <= 'Z'
  }

  predicate IsDigit(c: char) {
    '0' <= c <= '9'
  }

  predicate IsAsciiLetter(c: char) {
    'a' <= c <= 'z' || IsUpper(c)
  }

  /** `\w` of a JavaScript regular expression without the `u` flag. */
  predicate IsWordChar(c: char) {
    IsAsciiLetter(c) || IsDigit(c) || c == '_'
  }

  /** `String.prototype.toLowerCase` on one character, ASCII range only. */
  function ToLowerChar(c: char): (r: char)
    ensures !IsUpper(r)
    ensures IsUpper(c) ==> r as int == c as int + 32
    ensures !IsUpper(c) ==> r == c
  {
    if IsUpper(c) then (c as int + 32) as char else c
  }

  function Lower(s: string): (r: string)
    ensures |r| == |s|
    ensures forall i :: 0 <= i < |s| ==> r[i] == ToLowerChar(s[i])
  {
    if |s| == 0 then [] else [ToLowerChar(s[0])] + Lower(s[1..])
  }

  predicate IsLowerCase(s: string) {
    forall i :: 0 <= i < |s| ==> !IsUpper(s[i])
  }

  /** Lower-casing a lower-case string changes nothing. */
  lemma LowerOfLowerCase(s: string)
    requires IsLowerCase(s)
    ensures Lower(s) == s
  {
  }

  /** Characters removed by `String.prototype.trim`: WhiteSpace and LineTerminator. */
  predicate IsJsWhitespace(c: char) {
    var n := c as int;
    n == 0x09 || n == 0x0A || n == 0x0B || n == 0x0C || n == 0x0D || n == 0x20
    || n == 0xA0 || n == 0x1680 || (0x2000 <= n <= 0x200A) || n == 0x2028 || n == 0x2029
    || n == 0x202F || n == 0x205F || n == 0x3000 || n == 0xFEFF
  }

  function TrimStart(s: string): (r: string)
    ensures |r| <= |s| && r == s[|s| - |r|..]
    ensures |r| > 0 ==> !IsJsWhitespace(r[0])
    ensures forall i :: 0 <= i < |s| - |r| ==> IsJsWhitespace(s[i])
  {
    if |s| > 0 && IsJsWhitespace(s[0]) then TrimStart(s[1..]) else s
  }

  function TrimEnd(s: string): (r: string)
    ensures |r| <= |s| && r == s[..|r|]
    ensures |r| > 0 ==> !IsJsWhitespace(r[|r| - 1])
    ensures forall i :: |r| <= i < |s| ==> IsJsWhitespace(s[i])
  {
    if |s| > 0 && IsJsWhitespace(s[|s| - 1]) then TrimEnd(s[..|s| - 1]) else s
  }

  /** `String.prototype.trim`. */
  function Trim(s: string): (r: string)
    ensures |r| > 0 ==> !IsJsWhitespace(r[0]) && !IsJsWhitespace(r[|r| - 1])
  {
    TrimEnd(TrimStart(s))
  }

  /** `trim` removes white space from the two ends and nothing else: the
      result is the slice of `s` between a white-space prefix and a
      white-space suffix. */
  lemma TrimSlice(s: string) returns (a: nat, b: nat)
    ensures a <= b <= |s| && Trim(s) == s[a..b]
    ensures forall i :: 0 <= i < a ==> IsJsWhitespace(s[i])
    ensures forall i :: b <= i < |s| ==> IsJsWhitespace(s[i])
  {
    var t := TrimStart(s);
    var r := TrimEnd(t);
    a := |s| - |t|;
    b := a + |r|;
    assert forall i :: b <= i < |s| ==> s[i] == t[i - a];
  }

  lemma TrimLowerCase(s: string)
    requires IsLowerCase(s)
    ensures IsLowerCase(Trim(s))
  {
    var a, b := TrimSlice(s);
    assert forall i :: 0 <= i < b - a ==> Trim(s)[i] == s[a + i];
  }

  /** Trimming a string with no white space at either end changes nothing. */
  lemma TrimUnpadded(s: string)
    requires |s| > 0 ==> !IsJsWhitespace(s[0]) && !IsJsWhitespace(s[|s| - 1])
    ensures Trim(s) == s
  {
  }
}

/** Sequence utilities: duplicate-freedom, first-occurrence de-duplication,
    positions and flattening. */
module Seqs {

  predicate Distinct<T(==)>(s: seq<T>) {
    forall i, j :: 0 <= i < j < |s| ==> s[i] != s[j]
  }

  lemma DistinctAppend<T>(a: seq<T>, b: seq<T>)
    requires Distinct(a) && Distinct(b)
    requires forall x :: x in a ==> x !in b
    ensures Distinct(a + b)
  {
    forall i, j | 0 <= i < j < |a + b|
      ensures (a + b)[i] != (a + b)[j]
    {
      if i < |a| && j >= |a| {
        assert (a + b)[i] in a && (a + b)[j] in b;
      }
    }
  }

  lemma DistinctHead<T>(a: seq<T>, b: seq<T>)
    requires Distinct(a + b) && |b| > 0
    ensures b[0] !in a
  {
    forall i | 0 <= i < |a|
      ensures a[i] != b[0]
    {
      assert (a + b)[i] == a[i] && (a + b)[|a|] == b[0];
    }
  }

  /** The position of the first occurrence of `x` in `s`. */
  function IndexOf<T(==)>(s: seq<T>, x: T): (i: nat)
    requires x in s
    ensures i < |s| && s[i] == x
    ensures forall j :: 0 <= j < i ==> s[j] != x
  {
    if s[0] == x then 0 else 1 + IndexOf(s[1..], x)
  }

  /** The elements of `s` in first-seen order, each once. */
  function Dedup<T(==)>(s: seq<T>): (r: seq<T>)
    ensures |r| <= |s|
  {
    if |s| == 0 then []
    else
      var d := Dedup(s[..|s| - 1]);
      if s[|s| - 1] in d then d else d + [s[|s| - 1]]
  }

  /** `Dedup` keeps every element of `s`, and no other. */
  lemma {:induction false} DedupMembers<T>(s: seq<T>)
    ensures forall x :: x in Dedup(s) <==> x in s
  {
    if |s| > 0 {
      var p := s[..|s| - 1];
      DedupMembers(p);
      assert s == p + [s[|s| - 1]];
    }
  }

  /** `Dedup` keeps each element once. */
  lemma {:induction false} DedupDistinct<T>(s: seq<T>)
    ensures Distinct(Dedup(s))
  {
    if |s| > 0 {
      var p := s[..|s| - 1];
      DedupDistinct(p);
      DedupMembers(p);
    }
  }

  lemma DedupSnoc<T(!new)>(s: seq<T>, x: T)
    ensures Dedup(s + [x]) == if x in Dedup(s) then Dedup(s) else Dedup(s) + [x]
  {
    assert (s + [x])[..|s + [x]| - 1] == s;
  }

  lemma DedupOfDistinct<T(!new)>(s: seq<T>)
    requires Distinct(s)
    ensures Dedup(s) == s
  {
    if |s| > 0 {
      DedupOfDistinct(s[..|s| - 1]);
    }
  }

  /** First-seen order: `x` precedes `y` in `Dedup(s)` exactly when the first
      occurrence of `x` in `s` precedes the first occurrence of `y`. */
  lemma {:induction false} DedupFirstSeenOrder<T(!new)>(s: seq<T>, x: T, y: T)
    requires x in s && y in s
    ensures x in Dedup(s) && y in Dedup(s)
    ensures IndexOf(Dedup(s), x) < IndexOf(Dedup(s), y) <==> IndexOf(s, x) < IndexOf(s, y)
    decreases |s|
  {
    DedupMembers(s);
    var p := s[..|s| - 1];
    DedupMembers(p);
    var z := s[|s| - 1];
    assert s == p + [z];
    var d := Dedup(p);
    if x in p && y in p {
      DedupFirstSeenOrder(p, x, y);
      DedupSnocOrder(p, z, x, y);
    } else if x in p {
      assert y == z && y !in d;
      IndexOfPrefix(p, [z], x);
      IndexOfPrefix(d, [z], x);
      assert IndexOf(Dedup(s), y) == |d|;
    } else if y in p {
      assert x == z && x !in d;
      IndexOfPrefix(p, [z], y);
      IndexOfPrefix(d, [z], y);
      assert IndexOf(Dedup(s), x) == |d|;
    } else {
      assert x == z && y == z;
    }
  }

  /** Appending an element moves no earlier first occurrence, in `s` or in its de-duplication. */
  lemma DedupSnocOrder<T(!new)>(p: seq<T>, z: T, x: T, y: T)
    requires x in p && y in p
    ensures x in Dedup(p) && y in Dedup(p) && x in Dedup(p + [z]) && y in Dedup(p + [z])
    ensures IndexOf(Dedup(p + [z]), x) == IndexOf(Dedup(p), x)
    ensures IndexOf(Dedup(p + [z]), y) == IndexOf(Dedup(p), y)
    ensures IndexOf(p + [z], x) == IndexOf(p, x) && IndexOf(p + [z], y) == IndexOf(p, y)
  {
    var d := Dedup(p);
    DedupMembers(p);
    DedupSnoc(p, z);
    IndexOfPrefix(p, [z], x);
    IndexOfPrefix(p, [z], y);
    IndexOfPrefix(d, [z], x);
    IndexOfPrefix(d, [z], y);
  }

  /** A prefix of a duplicate-free sequence is duplicate-free. */
  lemma DistinctPrefix<T>(s: seq<T>, n: nat)
    requires Distinct(s) && n <= |s|
    ensures Distinct(s[..n])
  {
  }

  lemma DistinctSnoc<T>(s: seq<T>)
    requires Distinct(s) && |s| > 0
    ensures s[|s| - 1] !in s[..|s| - 1]
  {
  }

  lemma SnocPrefix<T>(s: seq<T>)
    requires |s| > 0
    ensures s == s[..|s| - 1] + [s[|s| - 1]]
    ensures forall x :: x in s <==> x in s[..|s| - 1] || x == s[|s| - 1]
  {
  }

  /** Moving the head of `b` to the end of `a` leaves the concatenation unchanged. */
  lemma ShiftHead<T>(a: seq<T>, b: seq<T>)
    requires |b| > 0
    ensures a + [b[0]] + b[1..] == a + b
  {
  }

  /** The head of a sequence followed by a prefix of its tail and any two
      more pieces is that prefix of the sequence followed by the pieces. */
  lemma ConsSplice<T>(s: seq<T>, i: nat, e: seq<T>, x: seq<T>, r: seq<T>)
    requires 0 < i <= |s|
    requires x == s[1..][..i - 1] + e + r
    ensures [s[0]] + x == s[..i] + e + r
  {
    assert s[..i] == [s[0]] + s[1..][..i - 1];
  }

  /** Cutting a sequence at two points and gluing the parts back. */
  lemma SliceThree<T>(s: seq<T>, n: nat, k: nat)
    requires n <= k <= |s|
    ensures s == s[..n] + s[n..k] + s[k..]
  {
  }

  lemma AppendNil<T>(a: seq<T>)
    ensures a + [] == a
  {
  }

  /** In a duplicate-free sequence, each element's first occurrence is its only one. */
  lemma IndexOfDistinct<T>(s: seq<T>, i: nat)
    requires Distinct(s) && i < |s|
    ensures s[i] in s && IndexOf(s, s[i]) == i
  {
    assert s[i] in s;
  }

  lemma NilAppend<T>(a: seq<T>)
    ensures [] + a == a
  {
  }

  lemma IndexOfPrefix<T>(a: seq<T>, b: seq<T>, x: T)
    requires x in a
    ensures x in a + b && IndexOf(a + b, x) == IndexOf(a, x)
  {
    var i := IndexOf(a, x);
    var k := IndexOf(a + b, x);
    assert (a + b)[i] == x;
    assert k <= i;
    assert a[k] == x;
  }

  /** Appends each element of `fs` that `list` does not hold yet (`includes`, then `push`). */
  function PushNew<T(==)>(list: seq<T>, fs: seq<T>): seq<T>
    decreases |fs|
  {
    if |fs| == 0 then list
    else PushNew(if fs[0] in list then list else list + [fs[0]], fs[1..])
  }

  /** Pushing new elements onto a de-duplication de-duplicates the concatenation. */
  lemma {:induction false} PushNewDedup<T(!new)>(seen: seq<T>, fs: seq<T>)
    ensures PushNew(Dedup(seen), fs) == Dedup(seen + fs)
    decreases |fs|
  {
    if |fs| == 0 {
      AppendNil(seen);
    } else {
      var x := fs[0];
      var rest := fs[1..];
      var d := Dedup(seen);
      var d' := if x in d then d else d + [x];
      assert PushNew(d, fs) == PushNew(d', rest);
      DedupSnoc(seen, x);
      PushNewDedup(seen + [x], rest);
      ShiftHead(seen, fs);
    }
  }

  /** Concatenation of a sequence of sequences, left to right. */
  function Flatten<T>(ss: seq<seq<T>>): seq<T> {
    if |ss| == 0 then [] else ss[0] + Flatten(ss[1..])
  }

  function Filter<T(!new)>(p: T -> bool, s: seq<T>): (r: seq<T>)
    ensures |r| <= |s|
    ensures forall x :: x in r <==> x in s && p(x)
  {
    if |s| == 0 then [] else (if p(s[0]) then [s[0]] else []) + Filter(p, s[1..])
  }

  lemma FilterAppend<T(!new)>(p: T -> bool, a: seq<T>, b: seq<T>)
    ensures Filter(p, a + b) == Filter(p, a) + Filter(p, b)
  {
    if |a| > 0 {
      assert (a + b)[1..] == a[1..] + b;
      FilterAppend(p, a[1..], b);
    } else {
      assert a + b == b;
    }
  }

  lemma FilterDistinct<T(!new)>(p: T -> bool, s: seq<T>)
    requires Distinct(s)
    ensures Distinct(Filter(p, s))
  {
    if |s| > 0 {
      FilterDistinct(p, s[1..]);
    }
  }

  lemma FilterAll<T(!new)>(p: T -> bool, s: seq<T>)
    requires forall i :: 0 <= i < |s| ==> p(s[i])
    ensures Filter(p, s) == s
  {
    if |s| > 0 {
      FilterAll(p, s[1..]);
    }
  }

  lemma FilterNone<T(!new)>(p: T -> bool, s: seq<T>)
    requires forall i :: 0 <= i < |s| ==> !p(s[i])
    ensures Filter(p, s) == []
  {
    if |s| > 0 {
      FilterNone(p, s[1..]);
    }
  }

  function Count<T(!new)>(p: T -> bool, s: seq<T>): (n: nat)
    ensures n <= |s|
  {
    |Filter(p, s)|
  }
}
