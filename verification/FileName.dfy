/** MM_VerifyFileName, and what the names it accepts mean as paths. */
module FileName {
  import opened CfsConfig
  import opened CString

  ghost predicate HasTraversal(name: string) {
    Contains(name, "../") || Contains(name, "..\\")
  }

  ghost predicate UnderTablePath(name: string) {
    exists i :: 0 <= i < |VALID_PATHS| && VALID_PATHS[i] <= name
  }

  ghost predicate Accepted(name: string) {
    0 < |name| < OS_MAX_PATH_LEN && !HasTraversal(name) && UnderTablePath(name)
  }

  lemma PathNoNul(i: nat)
    requires i < |VALID_PATHS|
    ensures NoNul(VALID_PATHS[i])
  {
    PathFacts(i);
  }

  lemma PrefixByComparison(name: string, path: string)
    ensures Upto(name, |path|) == Upto(path, |path|) <==> path <= name
  {
  }

  // The scan of the path table inside MM_VerifyFileName.
  method MatchesTablePath(fileName: array<char>) returns (validPath: bool)
    requires Terminated(fileName[..])
    ensures validPath <==> UnderTablePath(CStr(fileName[..]))
  {
    hide VALID_PATHS, CStr, Upto, NoNul;
    ghost var name := CStr(fileName[..]);
    validPath := false;
    for i := 0 to |VALID_PATHS|
      invariant !validPath && forall j :: 0 <= j < i ==> !(VALID_PATHS[j] <= name)
    {
      var path := VALID_PATHS[i];
      PathNoNul(i);
      PrefixByComparison(name, path);
      var diff := StrNCmp(fileName, path, |path|);
      if diff == 0 {
        validPath := true;
        break;
      }
    }
  }

  // MM_VerifyFileName
  method VerifyFileName(fileName: array?<char>) returns (status: int)
    requires fileName != null ==> Terminated(fileName[..])
    ensures fileName == null ==> status == OS_INVALID_POINTER
    ensures fileName != null ==> status == if Accepted(CStr(fileName[..])) then CFE_SUCCESS else CFS_MM_ERROR_INVALID_FILE
  {
    hide CStr, Contains, UnderTablePath;
    if fileName == null {
      return OS_INVALID_POINTER;
    }
    var len := StrLen(fileName);
    if len == 0 || len >= OS_MAX_PATH_LEN {
      return CFS_MM_ERROR_INVALID_FILE;
    }
    var up := StrStr(fileName, "../");
    var upBackslash := StrStr(fileName, "..\\");
    if up != -1 || upBackslash != -1 {
      return CFS_MM_ERROR_INVALID_FILE;
    }
    var validPath := MatchesTablePath(fileName);
    if !validPath {
      return CFS_MM_ERROR_INVALID_FILE;
    }
    return CFE_SUCCESS;
  }

  // Two dots before a separator of either kind.
  predicate DotsAt(name: string, k: nat) {
    k + 2 < |name| && name[k] == '.' && name[k + 1] == '.' && (name[k + 2] == '/' || name[k + 2] == '\\')
  }

  // The traversal test, character by character.
  lemma TraversalExact(name: string)
    ensures HasTraversal(name) <==> exists k: nat :: DotsAt(name, k)
  {
    forall k: nat
      ensures DotsAt(name, k) <==> OccursAt(name, "../", k) || OccursAt(name, "..\\", k)
    {
      if k + 3 <= |name| {
        var s := name[k..k + 3];
        assert s[0] == name[k] && s[1] == name[k + 1] && s[2] == name[k + 2];
        assert s == [name[k], name[k + 1], name[k + 2]];
      }
    }
  }

  // What SafeStrNCpy leaves of a name in a buffer of 64 bytes.
  function Copied(name: string): (buffer: string)
    ensures |buffer| == 64
  {
    var s := Upto(name, 63);
    s + Nuls(64 - |s|)
  }

  // The length bound is the buffer's: a name that passes the other tests is accepted exactly when its
  // copy into a file name buffer is not cut.
  lemma AcceptedUncut(name: string)
    requires NoNul(name) && name != "" && !HasTraversal(name) && UnderTablePath(name)
    ensures Accepted(name) <==> CStr(Copied(name)) == name
    ensures Accepted(name) <==> |name| <= 63
  {
    hide CStr, HasTraversal, UnderTablePath, NoNul;
    var s := Upto(name, 63);
    UptoIs(name, 63);
    PrefixNoNul(name, s);
    NulsThenRest(s, 63 - |s|, "");
    assert s + Nuls(64 - |s|) + "" == Copied(name);
  }

  lemma LongNameClean(n: nat)
    ensures var name := "/ram/" + seq(n, _ => 'a'); |name| == n + 5 && NoNul(name) && !HasTraversal(name) && UnderTablePath(name)
  {
    var name := "/ram/" + seq(n, _ => 'a');
    assert VALID_PATHS[5] == "/ram/" <= name;
    TraversalExact(name);
    assert forall k :: 0 <= k < |name| ==> name[k] != '.' && name[k] != '\0';
  }

  // The longest accepted name has 63 characters.
  lemma LongestName()
    ensures Accepted("/ram/" + seq(58, _ => 'a')) && !Accepted("/ram/" + seq(59, _ => 'a'))
  {
    hide VALID_PATHS, HasTraversal, UnderTablePath;
    LongNameClean(58);
    LongNameClean(59);
  }

  // ----- lexical path resolution

  // The pieces of a name between separators; there is always at least one.
  function Components(s: string, separators: set<char>): (parts: seq<string>)
    ensures |parts| > 0
  {
    if s == "" then [""]
    else
      var rest := Components(s[1..], separators);
      if s[0] in separators then [""] + rest else [[s[0]] + rest[0]] + rest[1..]
  }

  // Following one component from the directory a stack of names denotes.
  function Enter(stack: seq<string>, part: string): seq<string> {
    if part == "" || part == "." then stack
    else if part == ".." then (if stack == [] then [] else stack[..|stack| - 1])
    else stack + [part]
  }

  function Follow(parts: seq<string>, stack: seq<string>): seq<string> {
    if parts == [] then stack else Follow(parts[1..], Enter(stack, parts[0]))
  }

  // The directory stack a name resolves to, starting from the file system root.
  function Resolve(name: string, separators: set<char>): seq<string> {
    Follow(Components(name, separators), [])
  }

  ghost predicate StaysUnder(root: string, name: string, separators: set<char>) {
    Resolve(root, separators) <= Resolve(name, separators)
  }

  // '/' always separates; whether '\' does is left open.
  predicate Separators(separators: set<char>) {
    '/' in separators && separators <= {'/', '\\'}
  }

  lemma {:induction false} ComponentsOfConcat(a: string, sep: char, b: string, separators: set<char>)
    requires sep in separators
    ensures Components(a + [sep] + b, separators) == Components(a, separators) + Components(b, separators)
  {
    var s := a + [sep] + b;
    if a == "" {
      assert s[1..] == b;
    } else {
      assert s[1..] == a[1..] + [sep] + b;
      ComponentsOfConcat(a[1..], sep, b, separators);
    }
  }

  // Either the whole string is one component, or the first component ends at a separator.
  lemma {:induction false} FirstComponent(s: string, separators: set<char>)
    ensures var parts := Components(s, separators); var first := parts[0];
      && first <= s
      && (|parts| == 1 ==> first == s)
      && (|parts| > 1 ==> |first| < |s| && s[|first|] in separators && parts[1..] == Components(s[|first| + 1..], separators))
  {
    if s == "" {
    } else {
      if s[0] in separators {
        assert s[1..] == s[0 + 1..];
      } else {
        FirstComponent(s[1..], separators);
      }
    }
  }

  lemma LeadingDots(s: string, separators: set<char>)
    requires |s| > 2 && s[..2] == ".." && s[2] in separators && Separators(separators)
    ensures HasTraversal(s)
  {
    assert s[0..3] == s[..2] + [s[2]];
    assert OccursAt(s, "../", 0) || OccursAt(s, "..\\", 0);
  }

  lemma SuffixClean(s: string, n: nat, needle: string)
    requires n <= |s| && !Contains(s, needle)
    ensures !Contains(s[n..], needle)
  {
    forall k: nat | OccursAt(s[n..], needle, k)
      ensures OccursAt(s, needle, n + k)
    {
      assert s[n..][k..k + |needle|] == s[n + k..n + k + |needle|];
    }
  }

  // Without "../" and "..\", only the last component can be "..".
  lemma {:induction false} InnerComponentsSafe(s: string, separators: set<char>, k: nat)
    requires !HasTraversal(s) && Separators(separators)
    requires k < |Components(s, separators)| - 1
    ensures Components(s, separators)[k] != ".."
    decreases k
  {
    FirstComponent(s, separators);
    var parts := Components(s, separators);
    var n := |parts[0]|;
    if k == 0 {
      if parts[0] == ".." {
        LeadingDots(s, separators);
      }
    } else {
      var rest := s[n + 1..];
      SuffixClean(s, n + 1, "../");
      SuffixClean(s, n + 1, "..\\");
      InnerComponentsSafe(rest, separators, k - 1);
    }
  }

  lemma {:induction false} FollowConcat(a: seq<string>, b: seq<string>, stack: seq<string>)
    ensures Follow(a + b, stack) == Follow(b, Follow(a, stack))
  {
    if a == [] {
      assert a + b == b;
    } else {
      assert (a + b)[1..] == a[1..] + b;
      FollowConcat(a[1..], b, Enter(stack, a[0]));
    }
  }

  predicate StandsStill(part: string) {
    part == "" || part == "."
  }

  // Without "..", the stack only grows, and grows unless every component stands still.
  lemma {:induction false} FollowGrows(parts: seq<string>, stack: seq<string>)
    requires forall k :: 0 <= k < |parts| ==> parts[k] != ".."
    ensures stack <= Follow(parts, stack)
    ensures Follow(parts, stack) == stack <==> forall k :: 0 <= k < |parts| ==> StandsStill(parts[k])
  {
    if parts == [] {
    } else {
      var next := Enter(stack, parts[0]);
      FollowGrows(parts[1..], next);
      assert forall k :: 1 <= k < |parts| ==> parts[k] == parts[1..][k - 1];
    }
  }

  lemma {:induction false} LastOfComponents(s: string, sep: char, separators: set<char>)
    requires sep in separators
    ensures Components(s + [sep], separators) == Components(s, separators) + [""]
  {
    ComponentsOfConcat(s, sep, "", separators);
    assert s + [sep] + "" == s + [sep];
  }

  lemma TablePathClean(i: nat)
    requires i < |VALID_PATHS|
    ensures !HasTraversal(VALID_PATHS[i])
  {
    PathFacts(i);
    var p := VALID_PATHS[i];
    forall k: nat
      ensures !OccursAt(p, "../", k) && !OccursAt(p, "..\\", k)
    {
      if k + 3 <= |p| {
        assert p[k..k + 3][0] == p[k] != '.';
      }
    }
  }

  // A table path resolves to a proper directory, not to the file system root.
  lemma TablePathResolves(i: nat, separators: set<char>)
    requires i < |VALID_PATHS| && Separators(separators)
    ensures Resolve(VALID_PATHS[i], separators) != []
  {
    var p := VALID_PATHS[i];
    PathFacts(i);
    hide VALID_PATHS;
    var parts := Components(p, separators);
    var stem := p[..|p| - 1];
    assert p == stem + ['/'];
    LastOfComponents(stem, '/', separators);
    TablePathClean(i);
    forall k | 0 <= k < |parts|
      ensures parts[k] != ".."
    {
      if k < |parts| - 1 {
        InnerComponentsSafe(p, separators, k);
      }
    }
    FirstComponent(p[1..], separators);
    assert parts == [""] + Components(p[1..], separators);
    assert parts[1] == Components(p[1..], separators)[0];
    assert !StandsStill(parts[1]);
    FollowGrows(parts, []);
  }

  // The components of a name after the table path it starts with.
  function Tail(root: string, name: string, separators: set<char>): (parts: seq<string>)
    requires root <= name
    ensures |parts| > 0
  {
    Components(name[|root|..], separators)
  }

  lemma FollowOne(part: string, stack: seq<string>)
    ensures Follow([part], stack) == Enter(stack, part)
  {
    assert [part][1..] == [];
  }

  lemma ResolveFromRoot(i: nat, name: string, separators: set<char>)
    requires i < |VALID_PATHS| && VALID_PATHS[i] <= name && Separators(separators)
    ensures Resolve(name, separators) == Follow(Tail(VALID_PATHS[i], name, separators), Resolve(VALID_PATHS[i], separators))
  {
    var p := VALID_PATHS[i];
    PathFacts(i);
    hide VALID_PATHS;
    var stem, rest := p[..|p| - 1], name[|p|..];
    assert p == stem + ['/'] && name == stem + ['/'] + rest;
    ComponentsOfConcat(stem, '/', rest, separators);
    LastOfComponents(stem, '/', separators);
    FollowConcat(Components(stem, separators), Components(rest, separators), []);
    FollowConcat(Components(stem, separators), [""], []);
    FollowOne("", Follow(Components(stem, separators), []));
  }

  lemma TailSafe(root: string, name: string, separators: set<char>)
    requires !HasTraversal(name) && root <= name && Separators(separators)
    ensures var tail := Tail(root, name, separators); forall k :: 0 <= k < |tail| - 1 ==> tail[k] != ".."
  {
    hide Components;
    var tail := Tail(root, name, separators);
    SuffixClean(name, |root|, "../");
    SuffixClean(name, |root|, "..\\");
    forall k | 0 <= k < |tail| - 1
      ensures tail[k] != ".."
    {
      InnerComponentsSafe(name[|root|..], separators, k);
    }
  }

  // One more component leaves the start directory only by stepping up from the start itself.
  lemma EnterUnder(start: seq<string>, stack: seq<string>, part: string)
    requires start != [] && start <= stack
    ensures start <= Enter(stack, part) <==> part != ".." || stack != start
  {
  }

  // An accepted name stays under the table path it matched exactly when its last component is not
  // "..", or some component before that one names a file or directory.
  lemma AcceptedStaysUnder(i: nat, name: string, separators: set<char>)
    requires Accepted(name) && i < |VALID_PATHS| && VALID_PATHS[i] <= name && Separators(separators)
    ensures var tail := Tail(VALID_PATHS[i], name, separators); var last := |tail| - 1;
      StaysUnder(VALID_PATHS[i], name, separators) <==> tail[last] != ".." || exists k :: 0 <= k < last && !StandsStill(tail[k])
  {
    hide VALID_PATHS, Components, Follow, HasTraversal, UnderTablePath, Contains;
    var p := VALID_PATHS[i];
    var tail := Tail(p, name, separators);
    var last := |tail| - 1;
    var inner := tail[..last];
    var start := Resolve(p, separators);
    ResolveFromRoot(i, name, separators);
    TablePathResolves(i, separators);
    TailSafe(p, name, separators);
    FollowGrows(inner, start);
    assert tail == inner + [tail[last]];
    FollowConcat(inner, [tail[last]], start);
    FollowOne(tail[last], Follow(inner, start));
    EnterUnder(start, Follow(inner, start), tail[last]);
    assert forall k :: 0 <= k < last ==> tail[k] == inner[k];
  }

  lemma DotsAreOneComponent(separators: set<char>)
    requires '.' !in separators
    ensures Components("..", separators) == [".."]
  {
    var dots := "..";
    FirstComponent(dots, separators);
    assert forall k :: 0 <= k < |dots| ==> dots[k] == '.';
  }

  // The failing family starts with a table path followed by a bare "..".
  lemma TrailingDotsEscape()
    ensures Accepted("/ram/..") && VALID_PATHS[5] <= "/ram/.." && !StaysUnder(VALID_PATHS[5], "/ram/..", {'/'})
  {
    var name := "/ram/..";
    assert VALID_PATHS[5] == "/ram/" <= name;
    forall k: nat
      ensures !OccursAt(name, "../", k) && !OccursAt(name, "..\\", k)
    {
      if k + 3 <= |name| {
        assert name[k..k + 3][2] == name[k + 2];
        assert name[k..k + 3][0] == name[k];
      }
    }
    assert Accepted(name);
    var tail := Tail("/ram/", name, {'/'});
    assert name[5..] == "..";
    DotsAreOneComponent({'/'});
    AcceptedStaysUnder(5, name, {'/'});
  }
}
