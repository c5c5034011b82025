/** Lexical path resolution: the tokenizer of vfs_path_normalize computes a fold over the components. */
module Paths {

  const WORK_BUF: nat := 512
  const WORK_COMP: nat := 32

  datatype Result = Ok(path: string) | NameTooLong | Invalid

  // ---------------------------------------------------------------- components

  predicate HasSlash(s: string) {
    '/' in s
  }

  /** The length of the longest prefix without a slash. */
  function WordLength(p: string): (n: nat)
    ensures n <= |p| && !HasSlash(p[..n]) && (n < |p| ==> p[n] == '/')
  {
    if p == [] || p[0] == '/' then 0
    else
      var n := 1 + WordLength(p[1..]);
      assert p[..n] == [p[0]] + p[1..][..n - 1];
      n
  }

  /** The non-empty pieces between slashes. */
  function Components(p: string): seq<string> {
    if p == [] then []
    else if p[0] == '/' then Components(p[1..])
    else var n := WordLength(p); [p[..n]] + Components(p[n..])
  }

  /** What one component does to the stack; the stack has room for 32. */
  function Push(stack: seq<string>, c: string): seq<string> {
    if c == "." then stack
    else if c == ".." then (if stack == [] then [] else stack[..|stack| - 1])
    else if |stack| < WORK_COMP then stack + [c]
    else stack
  }

  function Fold(stack: seq<string>, cs: seq<string>): seq<string>
    decreases |cs|
  {
    if cs == [] then stack else Fold(Push(stack, cs[0]), cs[1..])
  }

  function JoinAll(stack: seq<string>): string {
    if stack == [] then [] else if |stack| == 1 then stack[0] else stack[0] + "/" + JoinAll(stack[1..])
  }

  predicate IsAbsolute(p: string) {
    p != [] && p[0] == '/'
  }

  function Render(absolute: bool, stack: seq<string>): string {
    if stack == [] then (if absolute then "/" else ".")
    else (if absolute then "/" else "") + JoinAll(stack)
  }

  function Cut(p: string): string {
    if |p| < WORK_BUF then p else p[..WORK_BUF - 1]
  }

  /** The normal form of a path. */
  function Normal(p: string): string {
    if p == [] then "." else Render(IsAbsolute(p), Fold([], Components(Cut(p))))
  }

  // ---------------------------------------------------------------- putting paths together

  lemma {:induction false} WordConcat(a: string, b: string)
    requires b == [] || b[0] == '/'
    ensures WordLength(a + b) == WordLength(a)
  {
    if a == [] {
      assert a + b == b;
    } else if a[0] != '/' {
      WordConcat(a[1..], b);
      assert (a + b)[1..] == a[1..] + b;
    }
  }

  lemma {:induction false} WordBefore(a: string, b: string)
    requires HasSlash(a)
    ensures WordLength(a + b) == WordLength(a) < |a|
  {
    if a[0] != '/' {
      assert a == [a[0]] + a[1..];
      WordBefore(a[1..], b);
      assert (a + b)[1..] == a[1..] + b;
    }
  }

  /** Components of a concatenation at a slash. */
  lemma {:induction false} ComponentsConcat(a: string, b: string)
    requires a == [] || a[|a| - 1] == '/' || b == [] || b[0] == '/'
    ensures Components(a + b) == Components(a) + Components(b)
    decreases |a|
  {
    if a == [] {
      assert a + b == b;
    } else if a[0] == '/' {
      assert (a + b)[1..] == a[1..] + b;
      ComponentsConcat(a[1..], b);
    } else {
      var n := WordLength(a);
      if b == [] || b[0] == '/' {
        WordConcat(a, b);
      } else {
        assert a[|a| - 1] in a;
        WordBefore(a, b);
      }
      assert n > 0;
      assert (a + b)[..n] == a[..n] && (a + b)[n..] == a[n..] + b;
      ComponentsConcat(a[n..], b);
    }
  }

  lemma {:induction false} WordWhole(w: string)
    requires !HasSlash(w)
    ensures WordLength(w) == |w|
  {
    if w != [] {
      WordWhole(w[1..]);
    }
  }

  lemma ComponentsOfWord(w: string)
    requires !HasSlash(w) && w != []
    ensures Components(w) == [w]
  {
    WordWhole(w);
    assert w[..|w|] == w && w[|w|..] == [];
    assert w[0] in w;
  }

  lemma {:induction false} FoldConcat(stack: seq<string>, a: seq<string>, b: seq<string>)
    ensures Fold(stack, a + b) == Fold(Fold(stack, a), b)
    decreases |a|
  {
    hide Push;
    if a == [] {
      assert a + b == b;
    } else {
      assert (a + b)[1..] == a[1..] + b && (a + b)[0] == a[0];
      FoldConcat(Push(stack, a[0]), a[1..], b);
    }
  }

  // ---------------------------------------------------------------- what is on the stack

  /** A component that stays: not empty, without slash, neither "." nor "..". */
  predicate Plain(c: string) {
    c != [] && !HasSlash(c) && c != "." && c != ".."
  }

  ghost predicate AllPlain(cs: seq<string>) {
    forall i :: 0 <= i < |cs| ==> Plain(cs[i])
  }

  lemma {:induction false} ComponentsAreWords(p: string)
    ensures forall i :: 0 <= i < |Components(p)| ==> Components(p)[i] != [] && !HasSlash(Components(p)[i])
    decreases |p|
  {
    if p != [] {
      if p[0] == '/' {
        ComponentsAreWords(p[1..]);
      } else {
        var n := WordLength(p);
        ComponentsAreWords(p[n..]);
      }
    }
  }

  lemma {:induction false} FoldPlain(stack: seq<string>, cs: seq<string>)
    requires AllPlain(stack) && |stack| <= WORK_COMP
    requires forall i :: 0 <= i < |cs| ==> cs[i] != [] && !HasSlash(cs[i])
    ensures AllPlain(Fold(stack, cs)) && |Fold(stack, cs)| <= WORK_COMP
    decreases |cs|
  {
    if cs != [] {
      FoldPlain(Push(stack, cs[0]), cs[1..]);
    }
  }

  /** A stack that fits folds to itself. */
  lemma {:induction false} FoldItself(stack: seq<string>, cs: seq<string>)
    requires AllPlain(cs) && |stack| + |cs| <= WORK_COMP
    ensures Fold(stack, cs) == stack + cs
    decreases |cs|
  {
    if cs == [] {
      assert stack + cs == stack;
    } else {
      FoldItself(stack + [cs[0]], cs[1..]);
      assert stack + [cs[0]] + cs[1..] == stack + cs;
    }
  }

  lemma {:induction false} ComponentsOfJoin(stack: seq<string>)
    requires AllPlain(stack)
    ensures Components(JoinAll(stack)) == stack
    ensures stack != [] ==> JoinAll(stack) != [] && JoinAll(stack)[0] == stack[0][0]
  {
    if |stack| == 1 {
      ComponentsOfWord(stack[0]);
    } else if stack != [] {
      var tail := JoinAll(stack[1..]);
      ComponentsOfJoin(stack[1..]);
      ComponentsOfWord(stack[0]);
      ComponentsConcat(stack[0], "/" + tail);
      assert ("/" + tail)[1..] == tail;
      assert stack[0] + "/" + tail == stack[0] + ("/" + tail);
      assert [stack[0]] + stack[1..] == stack;
    }
  }

  lemma FirstIsNoSlash(stack: seq<string>)
    requires AllPlain(stack) && stack != []
    ensures stack[0][0] != '/'
  {
    assert stack[0][0] in stack[0];
  }

  /** Reading a rendered stack gives the stack back. */
  lemma RenderKeeps(absolute: bool, stack: seq<string>)
    requires AllPlain(stack) && |stack| <= WORK_COMP
    ensures Render(absolute, stack) != [] && IsAbsolute(Render(absolute, stack)) == absolute
    ensures Fold([], Components(Render(absolute, stack))) == stack
    ensures stack != [] || absolute ==> Components(Render(absolute, stack)) == stack
  {
    if stack == [] {
      assert "/"[1..] == [];
      ComponentsOfWord(".");
    } else {
      ComponentsOfJoin(stack);
      FirstIsNoSlash(stack);
      FoldItself([], stack);
      assert [] + stack == stack;
      if absolute {
        var r := "/" + JoinAll(stack);
        assert r[1..] == JoinAll(stack);
      } else {
        assert "" + JoinAll(stack) == JoinAll(stack);
      }
    }
  }

  // ---------------------------------------------------------------- lengths

  /** The bytes a stack takes in an absolute path. */
  function Weight(cs: seq<string>): nat {
    if cs == [] then 0 else |cs[0]| + 1 + Weight(cs[1..])
  }

  lemma {:induction false} WeightConcat(a: seq<string>, b: seq<string>)
    ensures Weight(a + b) == Weight(a) + Weight(b)
  {
    if a == [] {
      assert a + b == b;
    } else {
      WeightConcat(a[1..], b);
      assert (a + b)[1..] == a[1..] + b;
    }
  }

  lemma PushWeight(stack: seq<string>, c: string)
    ensures Weight(Push(stack, c)) <= Weight(stack) + |c| + 1
  {
    if c == ".." && stack != [] {
      WeightConcat(stack[..|stack| - 1], [stack[|stack| - 1]]);
      assert stack[..|stack| - 1] + [stack[|stack| - 1]] == stack;
    }
    WeightConcat(stack, [c]);
    assert [c][1..] == [];
  }

  lemma {:induction false} FoldWeight(stack: seq<string>, cs: seq<string>)
    ensures Weight(Fold(stack, cs)) <= Weight(stack) + Weight(cs)
    decreases |cs|
  {
    if cs != [] {
      PushWeight(stack, cs[0]);
      FoldWeight(Push(stack, cs[0]), cs[1..]);
    }
  }

  /** Each component of a path takes its bytes and a slash, but for one slash. */
  lemma {:induction false} ComponentsWeight(p: string)
    ensures Weight(Components(p)) <= |p| + 1
    ensures p != [] && (p[0] == '/' || p[|p| - 1] == '/') ==> Weight(Components(p)) <= |p|
    ensures p != [] && p[0] == '/' && p[|p| - 1] == '/' && Components(p) != [] ==> Weight(Components(p)) < |p|
    decreases |p|
  {
    if p != [] {
      if p[0] == '/' {
        ComponentsWeight(p[1..]);
      } else {
        var n := WordLength(p);
        ComponentsWeight(p[n..]);
        assert ([p[..n]] + Components(p[n..]))[1..] == Components(p[n..]);
        assert n < |p| ==> p[n..][|p| - n - 1] == p[|p| - 1];
        if n == |p| {
          assert p[|p| - 1] in p[..n];
        }
      }
    }
  }

  lemma {:induction false} JoinLength(stack: seq<string>)
    ensures stack != [] ==> |JoinAll(stack)| + 1 == Weight(stack)
  {
    if |stack| > 1 {
      JoinLength(stack[1..]);
    } else if |stack| == 1 {
      assert stack[1..] == [];
    }
  }

  /** A normal form is no longer than the path, and leaves room for a slash the path may have at its end. */
  lemma NormalLength(p: string)
    requires p != []
    ensures |Normal(p)| <= |Cut(p)|
    ensures IsAbsolute(p) && |p| < WORK_BUF && p[|p| - 1] == '/' && Normal(p)[|Normal(p)| - 1] != '/' ==>
              |Normal(p)| < |p|
  {
    var c := Cut(p);
    var stack := Fold([], Components(c));
    ComponentsAreWords(c);
    FoldPlain([], Components(c));
    FoldWeight([], Components(c));
    ComponentsWeight(c);
    JoinLength(stack);
  }

  // ---------------------------------------------------------------- laws

  /** A normal form has only plain components, apart from the results "/" and ".". */
  lemma NormalIsPlain(p: string)
    ensures Normal(p) == "." || AllPlain(Components(Normal(p)))
  {
    if p != [] {
      var stack := Fold([], Components(Cut(p)));
      ComponentsAreWords(Cut(p));
      FoldPlain([], Components(Cut(p)));
      RenderKeeps(IsAbsolute(p), stack);
    }
  }

  /** Normalizing twice is normalizing once. */
  lemma NormalIdempotent(p: string)
    ensures Normal(Normal(p)) == Normal(p)
  {
    if p == [] {
      ComponentsOfWord(".");
    } else {
      var stack := Fold([], Components(Cut(p)));
      ComponentsAreWords(Cut(p));
      FoldPlain([], Components(Cut(p)));
      RenderKeeps(IsAbsolute(p), stack);
      NormalLength(p);
    }
  }

  /** vfs_path_join. */
  function Join(dir: string, name: string): string {
    dir + (if dir != [] && dir[|dir| - 1] != '/' then "/" else "") + name
  }

  lemma ComponentsOfJoined(dir: string, name: string)
    requires dir != []
    ensures Components(Join(dir, name)) == Components(dir) + Components(name)
  {
    if dir[|dir| - 1] == '/' {
      assert dir + "" + name == dir + name;
      ComponentsConcat(dir, name);
    } else {
      var rest := "/" + name;
      assert dir + "/" + name == dir + rest;
      ComponentsConcat(dir, rest);
      assert rest[1..] == name;
    }
  }

  /** A path below an absolute directory can be resolved after the directory was. */
  lemma NormalOfJoin(dir: string, name: string)
    requires IsAbsolute(dir) && |Join(dir, name)| < WORK_BUF
    ensures Normal(Join(Normal(dir), name)) == Normal(Join(dir, name))
  {
    var n := Normal(dir);
    var stack := Fold([], Components(dir));
    ComponentsAreWords(dir);
    FoldPlain([], Components(dir));
    RenderKeeps(true, stack);
    NormalLength(dir);
    ComponentsOfJoined(dir, name);
    ComponentsOfJoined(n, name);
    FoldConcat([], Components(dir), Components(name));
    FoldConcat([], Components(n), Components(name));
  }

  // ---------------------------------------------------------------- what a path means

  function Dots(cs: seq<string>): nat {
    if cs == [] then 0 else (if cs[0] == ".." then 1 else 0) + Dots(cs[1..])
  }

  function Plains(cs: seq<string>): nat {
    if cs == [] then 0 else (if Plain(cs[0]) then 1 else 0) + Plains(cs[1..])
  }

  /** A component before these stays: however far one reads, there are no more ".." than names that they can take. */
  ghost predicate Stays(rest: seq<string>) {
    forall j :: 0 <= j <= |rest| ==> Dots(rest[..j]) <= Plains(rest[..j])
  }

  /** The names that no later ".." takes back, in order. */
  ghost function Kept(cs: seq<string>): seq<string> {
    if cs == [] then [] else (if Plain(cs[0]) && Stays(cs[1..]) then [cs[0]] else []) + Kept(cs[1..])
  }

  /** How many directories deep the components lead. */
  function Depth(cs: seq<string>): nat {
    if cs == [] then 0
    else
      var d, c := Depth(cs[..|cs| - 1]), cs[|cs| - 1];
      if Plain(c) then d + 1 else if c == ".." && d > 0 then d - 1 else d
  }

  /** The depth after the first i components. */
  function DepthAt(cs: seq<string>, i: nat): nat
    requires i <= |cs|
  {
    Depth(cs[..i])
  }

  /** More than 32 deep after the first i components, and not back at the start since. */
  ghost predicate DeepSince(cs: seq<string>, i: int) {
    0 <= i <= |cs| && DepthAt(cs, i) > 32 && forall j :: i <= j <= |cs| ==> DepthAt(cs, j) > 0
  }

  ghost predicate TooDeep(cs: seq<string>) {
    exists i :: DeepSince(cs, i)
  }

  ghost predicate AllWords(cs: seq<string>) {
    forall i :: 0 <= i < |cs| ==> cs[i] != [] && !HasSlash(cs[i])
  }

  /** A stack without a limit. */
  function PushFree(stack: seq<string>, c: string): seq<string> {
    if Plain(c) then stack + [c]
    else if c == ".." && stack != [] then stack[..|stack| - 1]
    else stack
  }

  function FoldFree(stack: seq<string>, cs: seq<string>): seq<string>
    decreases |cs|
  {
    if cs == [] then stack else FoldFree(PushFree(stack, cs[0]), cs[1..])
  }

  /** How many names before the components their ".." take. */
  function Pending(cs: seq<string>): nat {
    if cs == [] then 0
    else
      var q := Pending(cs[1..]);
      if cs[0] == ".." then q + 1 else if Plain(cs[0]) && q > 0 then q - 1 else q
  }

  lemma PrefixCounts(cs: seq<string>, j: nat)
    requires 0 < j <= |cs|
    ensures Dots(cs[..j]) == (if cs[0] == ".." then 1 else 0) + Dots(cs[1..][..j - 1])
    ensures Plains(cs[..j]) == (if Plain(cs[0]) then 1 else 0) + Plains(cs[1..][..j - 1])
  {
    assert cs[..j][1..] == cs[1..][..j - 1];
  }

  ghost predicate Within(cs: seq<string>, k: int) {
    forall j :: 0 <= j <= |cs| ==> Dots(cs[..j]) <= Plains(cs[..j]) + k
  }

  lemma WithinStep(cs: seq<string>, k: nat)
    requires cs != []
    ensures Within(cs, k) <==>
            Within(cs[1..], k - (if cs[0] == ".." then 1 else 0) + (if Plain(cs[0]) then 1 else 0))
            && (cs[0] == ".." ==> k > 0)
  {
    hide Dots;
    hide Plains;
    hide Plain;
    var rest, k' := cs[1..], k - (if cs[0] == ".." then 1 else 0) + (if Plain(cs[0]) then 1 else 0);
    NoCounts(cs);
    NoCounts(rest);
    if Within(cs, k) {
      forall j | 0 <= j <= |rest|
        ensures Dots(rest[..j]) <= Plains(rest[..j]) + k'
      {
        PrefixCounts(cs, j + 1);
        assert Dots(cs[..j + 1]) <= Plains(cs[..j + 1]) + k;
      }
      assert Dots(rest[..0]) <= Plains(rest[..0]) + k';
    }
    if Within(rest, k') && (cs[0] == ".." ==> k > 0) {
      forall j | 0 <= j <= |cs|
        ensures Dots(cs[..j]) <= Plains(cs[..j]) + k
      {
        if j > 0 {
          PrefixCounts(cs, j);
          assert Dots(rest[..j - 1]) <= Plains(rest[..j - 1]) + k';
        }
      }
    }
    assert cs[0] == ".." ==> !Plain(cs[0]) by {
      DotsNotPlain();
    }
  }

  lemma DotsNotPlain()
    ensures !Plain("..") && !Plain(".")
  {
  }

  lemma NoCounts(cs: seq<string>)
    ensures Dots(cs[..0]) == 0 && Plains(cs[..0]) == 0
  {
  }

  lemma {:induction false} PendingIs(cs: seq<string>, k: nat)
    ensures Pending(cs) <= k <==> Within(cs, k)
  {
    hide Within;
    if cs == [] {
      NothingWithin(cs, k);
    } else {
      WithinStep(cs, k);
      if cs[0] == ".." {
        if k > 0 {
          PendingIs(cs[1..], k - 1);
        }
      } else if Plain(cs[0]) {
        PendingIs(cs[1..], k + 1);
      } else {
        PendingIs(cs[1..], k);
      }
    }
  }

  lemma NothingWithin(cs: seq<string>, k: nat)
    requires cs == []
    ensures Within(cs, k)
  {
  }

  /** A stack without its last n names. */
  function Trim(stack: seq<string>, n: nat): seq<string> {
    if n <= |stack| then stack[..|stack| - n] else []
  }

  lemma TrimFacts(stack: seq<string>, c: string, n: nat)
    ensures Trim(stack, 0) == stack && Trim(stack + [c], 0) == stack + [c] && Trim(stack + [c], n + 1) == Trim(stack, n)
    ensures stack != [] ==> Trim(stack[..|stack| - 1], n) == Trim(stack, n + 1)
    ensures Trim([], n) == []
  {
  }

  lemma KeptStep(cs: seq<string>)
    requires cs != []
    ensures Kept(cs) == if Plain(cs[0]) && Pending(cs[1..]) == 0 then [cs[0]] + Kept(cs[1..]) else Kept(cs[1..])
  {
    hide Plain;
    hide Within;
    hide Pending;
    PendingIs(cs[1..], 0);
    StaysIs(cs[1..]);
    assert [] + Kept(cs[1..]) == Kept(cs[1..]);
  }

  /** The unlimited stack keeps exactly the names that stay. */
  lemma {:induction false} FreeKeeps(stack: seq<string>, cs: seq<string>)
    ensures FoldFree(stack, cs) == Trim(stack, Pending(cs)) + Kept(cs)
    decreases |cs|
  {
    hide Plain;
    hide Within;
    hide Trim;
    hide Kept;
    if cs == [] {
      TrimFacts(stack, "", 0);
      KeptNothing();
      assert stack + [] == stack;
    } else {
      var c, rest := cs[0], cs[1..];
      var q := Pending(rest);
      DotsNotPlain();
      FreeKeeps(PushFree(stack, c), rest);
      KeptStep(cs);
      TrimFacts(stack, c, q);
      if Plain(c) {
        if q == 0 {
          assert stack + [c] + Kept(rest) == stack + ([c] + Kept(rest));
        } else {
          TrimFacts(stack, c, q - 1);
        }
      } else if stack == [] {
        TrimFacts([], c, q + 1);
      }
    }
  }

  lemma KeptNothing()
    ensures Kept([]) == []
  {
  }

  lemma StaysIs(rest: seq<string>)
    ensures Stays(rest) <==> Within(rest, 0)
  {
  }

  lemma FoldLast(cs: seq<string>)
    requires cs != []
    ensures Fold([], cs) == Push(Fold([], cs[..|cs| - 1]), cs[|cs| - 1])
  {
    hide Push;
    var init, last := cs[..|cs| - 1], [cs[|cs| - 1]];
    assert cs == init + last && last[1..] == [];
    FoldConcat([], init, last);
  }

  lemma {:induction false} FreeConcat(stack: seq<string>, a: seq<string>, b: seq<string>)
    ensures FoldFree(stack, a + b) == FoldFree(FoldFree(stack, a), b)
    decreases |a|
  {
    hide PushFree;
    if a == [] {
      assert a + b == b;
    } else {
      assert (a + b)[1..] == a[1..] + b && (a + b)[0] == a[0];
      FreeConcat(PushFree(stack, a[0]), a[1..], b);
    }
  }

  lemma FreeLast(cs: seq<string>)
    requires cs != []
    ensures FoldFree([], cs) == PushFree(FoldFree([], cs[..|cs| - 1]), cs[|cs| - 1])
  {
    hide PushFree;
    var init, last := cs[..|cs| - 1], [cs[|cs| - 1]];
    assert cs == init + last && last[1..] == [];
    FreeConcat([], init, last);
  }

  lemma DepthAtEarlier(cs: seq<string>, n: nat, j: nat)
    requires j <= n <= |cs|
    ensures DepthAt(cs[..n], j) == DepthAt(cs, j)
  {
    assert cs[..n][..j] == cs[..j];
  }

  lemma DepthAtEnd(cs: seq<string>)
    ensures DepthAt(cs, |cs|) == Depth(cs)
  {
    assert cs[..|cs|] == cs;
  }

  lemma DeepSinceLast(cs: seq<string>, i: int)
    requires cs != []
    ensures DeepSince(cs, i) <==>
            (i == |cs| && Depth(cs) > 32) || (DeepSince(cs[..|cs| - 1], i) && Depth(cs) > 0)
  {
    hide Depth;
    hide DepthAt;
    var n, init := |cs| - 1, cs[..|cs| - 1];
    DepthAtEnd(cs);
    forall j | 0 <= j <= n
      ensures DepthAt(cs, j) == DepthAt(init, j)
    {
      DepthAtEarlier(cs, n, j);
    }
  }

  lemma DeepLast(cs: seq<string>)
    requires cs != []
    ensures TooDeep(cs) <==> Depth(cs) > 32 || (TooDeep(cs[..|cs| - 1]) && Depth(cs) > 0)
  {
    hide DeepSince;
    hide Depth;
    var init := cs[..|cs| - 1];
    DeepSinceLast(cs, |cs|);
    if TooDeep(cs) {
      var i :| DeepSince(cs, i);
      DeepSinceLast(cs, i);
    }
    if TooDeep(init) {
      var i :| DeepSince(init, i);
      DeepSinceLast(cs, i);
    }
  }

  /** The stack of 32 is the unlimited one, or shorter. */
  lemma {:induction false} LimitedStack(cs: seq<string>)
    requires AllWords(cs)
    ensures |FoldFree([], cs)| == Depth(cs)
    ensures !TooDeep(cs) ==> Fold([], cs) == FoldFree([], cs) && Depth(cs) <= 32
    ensures TooDeep(cs) ==> |Fold([], cs)| < Depth(cs)
  {
    hide TooDeep;
    if cs == [] {
      NotDeep(cs);
    } else {
      var init, c := cs[..|cs| - 1], cs[|cs| - 1];
      assert forall i :: 0 <= i < |init| ==> init[i] == cs[i];
      LimitedStack(init);
      FoldLast(cs);
      FreeLast(cs);
      DeepLast(cs);
    }
  }

  lemma NotDeep(cs: seq<string>)
    requires cs == []
    ensures !TooDeep(cs)
  {
  }

  /** The limited stack keeps exactly the names that stay, if and only if the components do not lead too deep. */
  lemma StackMeans(cs: seq<string>)
    requires AllWords(cs)
    ensures Fold([], cs) == Kept(cs) <==> !TooDeep(cs)
    ensures |Kept(cs)| == Depth(cs)
  {
    hide TooDeep;
    LimitedStack(cs);
    FreeKeeps([], cs);
    TrimFacts([], "", Pending(cs));
    assert [] + Kept(cs) == Kept(cs);
  }

  /** What vfs_path_normalize makes of a path: the names among its first 511 bytes that no later ".." takes back, if and
      only if they do not lead too deep; absolute if the path is; "/" or "." if no name is left. */
  lemma NormalMeans(p: string)
    requires p != []
    ensures var cs := Components(if |p| <= 511 then p else p[..511]);
            && (Shows(Normal(p), Kept(cs)) <==> !TooDeep(cs))
            && IsAbsolute(Normal(p)) == IsAbsolute(p)
            && (!TooDeep(cs) ==> (Normal(p) == "." <==> !IsAbsolute(p) && Depth(cs) == 0))
  {
    hide TooDeep;
    hide Kept;
    hide Components;
    hide Fold;
    hide Render;
    hide Shows;
    var cs := Components(Cut(p));
    var stack := Fold([], cs);
    ComponentsAreWords(Cut(p));
    FoldPlain([], cs);
    RenderKeeps(IsAbsolute(p), stack);
    StackMeans(cs);
    KeptPlain(cs);
    RenderShows(IsAbsolute(p), stack, Kept(cs));
  }

  /** The path has exactly these components; "." has none. */
  predicate Shows(path: string, cs: seq<string>) {
    if path == "." then cs == [] else Components(path) == cs
  }

  lemma RenderShows(absolute: bool, stack: seq<string>, cs: seq<string>)
    requires AllPlain(stack) && |stack| <= WORK_COMP && AllPlain(cs)
    ensures Shows(Render(absolute, stack), cs) <==> stack == cs
    ensures Render(absolute, stack) == "." <==> !absolute && stack == []
  {
    hide Components;
    RenderKeeps(absolute, stack);
    if stack != [] {
      ComponentsOfJoin(stack);
      DotComponents();
      assert "" + JoinAll(stack) == JoinAll(stack);
    }
  }

  lemma {:induction false} KeptPlain(cs: seq<string>)
    ensures AllPlain(Kept(cs))
  {
    hide Stays;
    hide Plain;
    if cs != [] {
      KeptPlain(cs[1..]);
    }
  }

  /** A name and ".." after it cancel out, if and only if there is room for the name. */
  lemma DotDotCancels(p: string, c: string)
    requires IsAbsolute(p) && Plain(c) && |p| + 1 + |c| + 3 < WORK_BUF
    ensures Normal(p + "/" + c + "/..") == Normal(p) <==> |Components(Normal(p))| < 32
  {
    hide Plain;
    hide Components;
    hide Fold;
    hide Render;
    var q := p + "/" + c + "/..";
    var stack := Fold([], Components(p));
    ComponentsAreWords(p);
    FoldPlain([], Components(p));
    RenderKeeps(true, stack);
    CancelComponents(p, c);
    FoldConcat([], Components(p), [c, ".."]);
    CancelStack(stack, c);
    assert IsAbsolute(q) && q != [];
    if |stack| == 32 {
      RenderKeeps(true, stack[..31]);
    }
  }

  lemma CancelStack(stack: seq<string>, c: string)
    requires Plain(c) && |stack| <= 32
    ensures Fold(stack, [c, ".."]) == if |stack| < 32 then stack else stack[..31]
  {
    assert [c, ".."][1..] == [".."] && [".."][1..] == [];
    assert Fold(stack, [c, ".."]) == Fold(Push(stack, c), [".."]) == Push(Push(stack, c), "..");
    PlainPush(stack, c);
    assert (stack + [c])[..|stack|] == stack;
  }

  lemma PlainPush(stack: seq<string>, c: string)
    requires Plain(c)
    ensures Push(stack, c) == if |stack| < 32 then stack + [c] else stack
  {
  }

  lemma CancelComponents(p: string, c: string)
    requires p != [] && Plain(c)
    ensures Components(p + "/" + c + "/..") == Components(p) + [c, ".."]
  {
    hide Components;
    var tail := c + "/..";
    ComponentsOfWord(c);
    ComponentsOfWord("..");
    ComponentsConcat(c, "/..");
    SlashComponents("..");
    assert "/" + ".." == "/..";
    assert Components(tail) == [c] + [".."];
    ComponentsConcat(p, "/" + tail);
    SlashComponents(tail);
    assert p + "/" + c + "/.." == p + ("/" + tail);
    assert Components(p) + ([c] + [".."]) == Components(p) + [c, ".."];
  }

  lemma SlashComponents(p: string)
    ensures Components("/" + p) == Components(p)
  {
    assert ("/" + p)[1..] == p;
  }

  /** There is nothing above the root. */
  lemma RootParent()
    ensures Normal("/..") == "/"
  {
    ComponentsOfWord("..");
    assert "/.."[1..] == "..";
  }

  // ---------------------------------------------------------------- the code

  /** The in-place tokenizer of vfs_path_normalize: one pass with two positions. */
  method Tokenize(temp: string) returns (stack: seq<string>)
    ensures stack == Fold([], Components(temp))
  {
    hide Components;
    hide Fold;
    hide Push;
    stack := [];
    var token, next := 0, 0;
    NothingYet(temp);
    while next < |temp|
      invariant 0 <= token <= next <= |temp| && !HasSlash(temp[token..next])
      invariant token == 0 || temp[token - 1] == '/'
      invariant stack == Fold([], Components(temp[..token]))
    {
      if temp[next] == '/' {
        PassWord(temp, token, next);
        if token != next {
          stack := Push(stack, temp[token..next]);
        }
        token := next + 1;
      } else {
        assert temp[token..next + 1] == temp[token..next] + [temp[next]];
      }
      next := next + 1;
    }
    assert temp[token..next] == temp[token..];
    LastWord(temp, token);
    if token < |temp| {
      stack := Push(stack, temp[token..]);
    }
  }

  lemma NothingYet(temp: string)
    ensures Fold([], Components(temp[..0])) == []
  {
  }

  lemma FoldOne(stack: seq<string>, cs: seq<string>, w: string)
    ensures Fold(stack, cs + [w]) == Push(Fold(stack, cs), w)
  {
    FoldConcat(stack, cs, [w]);
    assert [w][1..] == [];
  }

  lemma LastWord(temp: string, token: nat)
    requires token <= |temp| && !HasSlash(temp[token..]) && (token == 0 || temp[token - 1] == '/')
    ensures var before := Fold([], Components(temp[..token]));
            Fold([], Components(temp)) == if token < |temp| then Push(before, temp[token..]) else before
  {
    hide Components;
    hide Fold;
    hide Push;
    var word := temp[token..];
    NoComponents();
    assert temp == temp[..token] + word;
    ComponentsConcat(temp[..token], word);
    if token < |temp| {
      ComponentsOfWord(word);
      FoldOne([], Components(temp[..token]), word);
    } else {
      assert temp[..token] == temp;
    }
  }

  lemma PassWord(temp: string, token: nat, next: nat)
    requires token <= next < |temp| && temp[next] == '/' && !HasSlash(temp[token..next])
    requires token == 0 || temp[token - 1] == '/'
    ensures var before := Fold([], Components(temp[..token]));
            Fold([], Components(temp[..next + 1])) == if token == next then before else Push(before, temp[token..next])
  {
    hide Components;
    hide Fold;
    hide Push;
    var word := temp[token..next];
    var rest := word + "/";
    NoComponents();
    assert temp[..next + 1] == temp[..token] + rest;
    ComponentsConcat(temp[..token], rest);
    ComponentsConcat(word, "/");
    if token < next {
      ComponentsOfWord(word);
      assert Components(rest) == [word];
      FoldOne([], Components(temp[..token]), word);
    } else {
      assert word == [] && Components(rest) == [];
      assert Components(temp[..token]) + [] == Components(temp[..token]);
    }
  }

  lemma NoComponents()
    ensures Components("/") == [] && Components([]) == []
  {
    assert "/"[1..] == [];
  }

  lemma {:induction false} JoinPrefix(stack: seq<string>, i: nat)
    requires i < |stack|
    ensures JoinAll(stack[..i + 1]) == JoinAll(stack[..i]) + (if i > 0 then "/" else "") + stack[i]
  {
    if i > 0 {
      JoinPrefix(stack[1..], i - 1);
      assert stack[..i + 1][1..] == stack[1..][..i] && stack[..i][1..] == stack[1..][..i - 1];
      assert stack[1..][i - 1] == stack[i];
      if i == 1 {
        assert stack[..1][1..] == [] && stack[1..][..0] == [];
        assert stack[..2] == [stack[0], stack[1]];
      }
    }
  }

  lemma {:induction false} JoinGrows(stack: seq<string>, i: nat)
    requires i <= |stack|
    ensures |JoinAll(stack[..i])| <= |JoinAll(stack)|
    decreases |stack| - i
  {
    if i < |stack| {
      JoinPrefix(stack, i);
      JoinGrows(stack, i + 1);
    } else {
      assert stack[..i] == stack;
    }
  }

  /** The output loop of vfs_path_normalize: the components with slashes between them, if they fit. */
  method Output(prefix: string, stack: seq<string>, size: nat) returns (r: Result)
    requires |prefix| < size
    ensures r == if |prefix + JoinAll(stack)| < size then Ok(prefix + JoinAll(stack)) else NameTooLong
  {
    hide JoinAll;
    var out, i := prefix, 0;
    JoinNothing(stack);
    while i < |stack|
      invariant 0 <= i <= |stack| && out == prefix + JoinAll(stack[..i]) && |out| < size
    {
      JoinPrefix(stack, i);
      JoinGrows(stack, i + 1);
      if i > 0 {
        if |out| + 1 >= size {
          return NameTooLong;
        }
        out := out + "/";
      }
      if |out| + |stack[i]| >= size {
        return NameTooLong;
      }
      out := out + stack[i];
      i := i + 1;
    }
    assert stack[..i] == stack;
    r := Ok(out);
  }

  lemma JoinNothing(stack: seq<string>)
    ensures JoinAll(stack[..0]) == []
  {
  }

  /** A buffer of one byte is not measured for the result "." of a path that is not empty. */
  predicate Unmeasured(path: string, size: nat) {
    size == 1 && path != [] && Normal(path) == "."
  }

  /** vfs_path_normalize: the normal form if it fits the buffer with its terminating zero, and also in the one case where
      the buffer is not measured. */
  method Normalize(path: string, size: nat) returns (r: Result)
    ensures r == if size == 0 then Invalid
                 else if |Normal(path)| < size || Unmeasured(path, size) then Ok(Normal(path))
                 else NameTooLong
  {
    if size == 0 {
      return Invalid;
    }
    if path == [] {
      return if size < 2 then NameTooLong else Ok(".");
    }
    var stack := Tokenize(Cut(path));
    if IsAbsolute(path) && 1 >= size {
      NormalNotEmpty(path);
      return NameTooLong;
    }
    r := Output(if IsAbsolute(path) then "/" else "", stack, size);
    OutputIsRender(path, stack);
    if r == Ok("") {
      r := Ok(if IsAbsolute(path) then "/" else ".");
    }
  }

  lemma DotComponents()
    ensures Components(".") == ["."]
  {
    assert WordLength(".") == 1;
    assert "."[..1] == "." && "."[1..] == [];
  }

  lemma NormalNotEmpty(path: string)
    requires IsAbsolute(path)
    ensures |Normal(path)| >= 1 && Normal(path) != "."
  {
    hide Fold;
    hide Components;
    hide JoinAll;
    assert path != [];
    assert Normal(path)[0] == '/';
  }

  lemma OutputIsRender(path: string, stack: seq<string>)
    requires path != [] && stack == Fold([], Components(Cut(path)))
    ensures var out := (if IsAbsolute(path) then "/" else "") + JoinAll(stack);
            Render(IsAbsolute(path), stack) == if out == [] then (if IsAbsolute(path) then "/" else ".") else out
    ensures JoinAll(stack) != "."
  {
    ComponentsAreWords(Cut(path));
    FoldPlain([], Components(Cut(path)));
    ComponentsOfJoin(stack);
    DotComponents();
  }

  /** vfs_path_join: the two paths with one slash between them, if they fit the buffer. */
  method JoinPaths(dir: string, name: string, size: nat) returns (r: Result)
    ensures r == if size == 0 then Invalid
                 else if |Join(dir, name)| < size then Ok(Join(dir, name)) else NameTooLong
    ensures r.Ok? ==>
              var n := if dir == [] || dir[|dir| - 1] == '/' then |dir| else |dir| + 1;
              && |r.path| == n + |name| && r.path[..|dir|] == dir && r.path[n..] == name
              && (n > |dir| ==> r.path[|dir|] == '/')
  {
    if size == 0 {
      return Invalid;
    }
    var separate := |dir| > 0 && dir[|dir| - 1] != '/';
    var total := |dir| + (if separate then 1 else 0) + |name|;
    if total >= size {
      return NameTooLong;
    }
    var out := dir;
    if separate {
      out := out + "/";
    }
    out := out + name;
    r := Ok(out);
  }
}
