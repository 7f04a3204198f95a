/** NUL-terminated strings in character buffers, and the string.h routines the source relies on. */
module CString {
  import opened CTypes

  // The buffer holds a NUL, so it is a C string.
  predicate Terminated(buffer: seq<char>) {
    '\0' in buffer
  }

  predicate NoNul(s: string) {
    '\0' !in s
  }

  // The C string at the start of a buffer: everything before the first NUL.
  function CStr(buffer: seq<char>): (s: string)
    ensures s <= buffer && NoNul(s)
    ensures |s| < |buffer| ==> buffer[|s|] == '\0'
    ensures |s| < |buffer| <==> Terminated(buffer)
  {
    if buffer == [] || buffer[0] == '\0' then "" else [buffer[0]] + CStr(buffer[1..])
  }

  lemma {:induction false} CStrIs(s: string, rest: seq<char>)
    requires NoNul(s)
    ensures CStr(s + ['\0'] + rest) == s && Terminated(s + ['\0'] + rest)
  {
    var buffer := s + ['\0'] + rest;
    assert buffer[|s|] == '\0';
    if s == "" {
    } else {
      CStrIs(s[1..], rest);
      assert buffer[1..] == s[1..] + ['\0'] + rest;
    }
  }

  function Upto(s: string, n: nat): (r: string) {
    if n <= |s| then s[..n] else s
  }

  lemma PrefixNoNul(s: string, prefix: string)
    requires NoNul(s) && prefix <= s
    ensures NoNul(prefix)
  {
    assert forall k :: 0 <= k < |prefix| ==> prefix[k] == s[k];
  }

  lemma UptoIs(s: string, n: nat)
    ensures |Upto(s, n)| == (if n <= |s| then n else |s|) && Upto(s, n) <= s
  {
  }

  function Nuls(n: nat): (r: seq<char>)
    ensures |r| == n
  {
    seq(n, _ => '\0')
  }

  lemma MoreNuls(n: nat)
    ensures Nuls(n + 1) == Nuls(n) + ['\0'] == ['\0'] + Nuls(n)
  {
  }

  ghost predicate OccursAt(hay: string, needle: string, k: nat) {
    k + |needle| <= |hay| && hay[k..k + |needle|] == needle
  }

  ghost predicate Contains(hay: string, needle: string) {
    exists k: nat :: OccursAt(hay, needle, k)
  }

  method StrLen(s: array<char>) returns (n: nat)
    requires Terminated(s[..])
    ensures n == |CStr(s[..])|
  {
    n := 0;
    while s[n] != '\0'
      invariant n <= |CStr(s[..])|
      decreases s.Length - n
    {
      n := n + 1;
    }
  }

  // strstr: the first occurrence, or -1 for the null pointer.
  method StrStr(hay: array<char>, needle: string) returns (pos: int)
    requires Terminated(hay[..]) && NoNul(needle)
    ensures pos == -1 <==> !Contains(CStr(hay[..]), needle)
    ensures pos != -1 ==> pos >= 0 && OccursAt(CStr(hay[..]), needle, pos)
    ensures forall k: nat :: k < pos ==> !OccursAt(CStr(hay[..]), needle, k)
  {
    hide CStr;
    ghost var s := CStr(hay[..]);
    pos := 0;
    while true
      invariant 0 <= pos <= |s|
      invariant forall k: nat :: k < pos ==> !OccursAt(s, needle, k)
      decreases |s| - pos
    {
      var j := 0;
      while j < |needle| && hay[pos + j] == needle[j]
        invariant 0 <= j <= |needle| && pos + j <= |s|
        invariant hay[pos..pos + j] == needle[..j]
      {
        j := j + 1;
      }
      if j == |needle| {
        assert s[pos..pos + j] == hay[pos..pos + j];
        assert OccursAt(s, needle, pos);
        return;
      }
      assert pos + |needle| <= |s| ==> s[pos..pos + |needle|][j] == hay[pos + j] != needle[j];
      if hay[pos] == '\0' {
        assert pos == |s|;
        assert forall k: nat :: OccursAt(s, needle, k) ==> k <= pos;
        return -1;
      }
      pos := pos + 1;
    }
  }

  // strncmp against a string literal: zero exactly when the first n characters agree.
  method StrNCmp(a: array<char>, b: string, n: nat) returns (r: int)
    requires Terminated(a[..]) && NoNul(b)
    ensures r == 0 <==> Upto(CStr(a[..]), n) == Upto(b, n)
  {
    hide CStr;
    ghost var s := CStr(a[..]);
    for i := 0 to n
      invariant i <= |s| && i <= |b| && s[..i] == b[..i]
    {
      var ca, cb := a[i], if i < |b| then b[i] else '\0';
      if ca != cb {
        assert Upto(s, n) != Upto(b, n) by {
          if i < |s| && i < |b| {
            assert Upto(s, n)[i] != Upto(b, n)[i];
          }
        }
        return ca as int - cb as int;
      }
      if ca == '\0' {
        return 0;
      }
    }
    return 0;
  }

  // strncpy: at most n characters, padded with NULs to n, and not terminated if src is that long.
  method StrNCpy(dst: array<char>, src: string, n: nat)
    requires n <= dst.Length && NoNul(src)
    modifies dst
    ensures dst[..] == Upto(src, n) + Nuls(n - |Upto(src, n)|) + old(dst[n..])
  {
    for i := 0 to n
      invariant forall k :: 0 <= k < i ==> dst[k] == if k < |src| then src[k] else '\0'
      invariant forall k :: i <= k < dst.Length ==> dst[k] == old(dst[k])
    {
      dst[i] := if i < |src| then src[i] else '\0';
    }
  }

  // What strncat leaves in a buffer.
  function Appended(before: string, added: string): (after: string)
    requires |CStr(before)| + |added| < |before|
  {
    CStr(before) + added + ['\0'] + before[|CStr(before)| + |added| + 1..]
  }

  // The buffer once the first i characters have been appended, without a NUL.
  ghost function Extended(before: string, added: string, i: nat): (now: string)
    requires i <= |added| && |CStr(before)| + |added| < |before|
    ensures |now| == |before|
  {
    CStr(before) + added[..i] + before[|CStr(before)| + i..]
  }

  lemma ExtendSteps(before: string, added: string, i: nat)
    requires i <= |added| && |CStr(before)| + |added| < |before|
    ensures Extended(before, added, 0) == before
    ensures i < |added| ==> Extended(before, added, i)[|CStr(before)| + i := added[i]] == Extended(before, added, i + 1)
    ensures i == |added| ==> Extended(before, added, i)[|CStr(before)| + i := '\0'] == Appended(before, added)
  {
    hide CStr;
  }

  // strncat: at most n characters of src after the string in dst, and always a NUL.
  method StrNCat(dst: array<char>, src: string, n: nat)
    requires Terminated(dst[..]) && NoNul(src)
    requires |CStr(dst[..])| + |Upto(src, n)| < dst.Length
    modifies dst
    ensures dst[..] == Appended(old(dst[..]), Upto(src, n))
  {
    hide CStr, Upto, NoNul, Terminated, Extended, Appended;
    ghost var before, added := dst[..], Upto(src, n);
    var len := StrLen(dst);
    UptoIs(src, n);
    var i := 0;
    ExtendSteps(before, added, i);
    while i < n && i < |src|
      invariant 0 <= i <= |added|
      invariant dst[..] == Extended(before, added, i)
    {
      ghost var now := dst[..];
      ExtendSteps(before, added, i);
      dst[len + i] := src[i];
      assert dst[..] == now[len + i := added[i]];
      i := i + 1;
    }
    ghost var now := dst[..];
    ExtendSteps(before, added, i);
    dst[len + i] := '\0';
    assert dst[..] == now[len + i := '\0'];
  }

  // A string, a run of NULs and what follows, seen as one C string and its rest.
  lemma NulsThenRest(s: string, k: nat, after: string)
    requires NoNul(s)
    ensures CStr(s + Nuls(k + 1) + after) == s && Terminated(s + Nuls(k + 1) + after)
  {
    MoreNuls(k);
    CStrIs(s, Nuls(k) + after);
    assert s + Nuls(k + 1) + after == s + ['\0'] + (Nuls(k) + after);
  }

  lemma OneMoreNul(s: string, k: nat, tail: string, now: string)
    requires |tail| > 0 && now == s + Nuls(k) + tail
    ensures now[|s| + k := '\0'] == s + Nuls(k + 1) + tail[1..]
  {
    MoreNuls(k);
  }

  // The guard of both copy macros.
  predicate Copies(dst: array?<char>, src: Option<string>, size: nat) {
    dst != null && src.Some? && size > 0
  }

  // CFS_SAFE_STRNCPY: what fits in size bytes, NUL-terminated and NUL-padded.
  method SafeStrNCpy(dst: array?<char>, src: Option<string>, size: nat)
    requires Copies(dst, src, size) ==> size <= dst.Length && NoNul(src.value)
    modifies if dst == null then {} else {dst}
    ensures dst != null && !Copies(dst, src, size) ==> dst[..] == old(dst[..])
    ensures Copies(dst, src, size) ==> var s := Upto(src.value, size - 1);
      dst[..] == s + Nuls(size - |s|) + old(dst[size..]) && Terminated(dst[..]) && CStr(dst[..]) == s
  {
    hide CStr, Upto, Nuls, NoNul, Terminated;
    if dst != null && src.Some? && size > 0 {
      ghost var s, tail := Upto(src.value, size - 1), dst[size - 1..];
      assert tail[1..] == dst[size..];
      UptoIs(src.value, size - 1);
      PrefixNoNul(src.value, s);
      StrNCpy(dst, src.value, size - 1);
      ghost var now := dst[..];
      OneMoreNul(s, size - 1 - |s|, tail, now);
      NulsThenRest(s, size - 1 - |s|, tail[1..]);
      dst[size - 1] := '\0';
      assert dst[..] == now[size - 1 := '\0'];
    }
  }

  lemma NoNulSum(a: string, b: string)
    requires NoNul(a) && NoNul(b)
    ensures NoNul(a + b)
  {
  }

  // The count CFS_SAFE_STRNCAT passes on: size - length - 1 in the unsigned type of a size.
  function AppendCount(size: nat, length: nat): nat {
    (size - length - 1) % TWO_64
  }

  // The text CFS_SAFE_STRNCAT adds to a string already there.
  function Added(s: string, src: string, size: nat): (added: string) {
    Upto(src, AppendCount(size, |s|))
  }

  lemma UptoAll(s: string, n: nat)
    requires |s| <= n
    ensures Upto(s, n) == s
  {
  }

  // The count keeps the result within size bytes, NUL included, exactly when the string already there
  // is shorter than size. Otherwise it wraps, and nothing is cut off.
  lemma AppendExact(s: string, src: string, size: nat)
    requires 0 < size < TWO_64 && |s| + |src| < TWO_64
    ensures |s + Added(s, src, size)| < size <==> |s| < size
    ensures |s| < size ==> Added(s, src, size) == Upto(src, size - |s| - 1)
    ensures |s| >= size ==> Added(s, src, size) == src
  {
    hide Upto;
    UptoIs(src, AppendCount(size, |s|));
    if |s| < size {
      SmallMod(size - |s| - 1, TWO_64);
    } else {
      ModUnique(TWO_64 + size - |s| - 1, TWO_64, 0, TWO_64 + size - |s| - 1);
      UptoAll(src, AppendCount(size, |s|));
    }
  }

  // CFS_SAFE_STRNCAT. The buffer need only have room for what is written; size is not compared with
  // its length. The result fits in size bytes exactly when the old string did.
  method SafeStrNCat(dst: array?<char>, src: Option<string>, size: nat)
    requires Copies(dst, src, size) ==> Terminated(dst[..]) && NoNul(src.value)
    requires Copies(dst, src, size) ==> |CStr(dst[..])| + |Added(CStr(dst[..]), src.value, size)| < dst.Length
    modifies if dst == null then {} else {dst}
    ensures dst != null && !Copies(dst, src, size) ==> dst[..] == old(dst[..])
    ensures Copies(dst, src, size) ==> var added := Added(old(CStr(dst[..])), src.value, size);
      dst[..] == Appended(old(dst[..]), added) && Terminated(dst[..]) && CStr(dst[..]) == old(CStr(dst[..])) + added
    ensures Copies(dst, src, size) && |old(CStr(dst[..]))| + |src.value| < TWO_64 && size < TWO_64 ==>
      (|CStr(dst[..])| < size <==> |old(CStr(dst[..]))| < size)
  {
    hide CStr, Upto, NoNul, Terminated, AppendCount;
    if dst != null && src.Some? && size > 0 {
      ghost var before := dst[..];
      ghost var s := CStr(before);
      var len := StrLen(dst);
      ghost var added := Added(s, src.value, size);
      UptoIs(src.value, AppendCount(size, len));
      PrefixNoNul(src.value, added);
      StrNCat(dst, src.value, AppendCount(size, len));
      NoNulSum(s, added);
      CStrIs(s + added, before[len + |added| + 1..]);
      if |s| + |src.value| < TWO_64 && size < TWO_64 {
        AppendExact(s, src.value, size);
      }
    }
  }

  // A buffer of six bytes that holds "abcd", a size of 2 and the source "x": five characters are left
  // where the size allows one.
  lemma AppendOverruns()
    ensures var before := ['a', 'b', 'c', 'd', '\0', '\0'];
      CStr(before) == "abcd" && Added("abcd", "x", 2) == "x" && CStr(Appended(before, "x")) == "abcdx"
  {
    var before := ['a', 'b', 'c', 'd', '\0', '\0'];
    hide CStr;
    CStrIs("abcd", ['\0']);
    assert before == "abcd" + ['\0'] + ['\0'];
    AppendExact("abcd", "x", 2);
    CStrIs("abcdx", []);
    assert Appended(before, "x") == "abcdx" + ['\0'] + [];
  }
}
