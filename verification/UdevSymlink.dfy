/**
 Resolving a sysfs symbolic link by cutting strings, and the component-wise path
 resolution it stands for. What readlink returned is a parameter.
 */
module UdevSymlink {
  import opened Basics
  import opened Text

  const UTIL_PATH_SIZE := 1024

  predicate StartsWith(str: string, prefix: string) {
    |str| >= |prefix| && str[..|prefix|] == prefix
  }

  /** The string up to its last separator. */
  function Chopped(str: string, sep: char): Option<string> {
    if str == "" then None
    else if str[|str| - 1] == sep then Some(str[..|str| - 1])
    else Chopped(str[..|str| - 1], sep)
  }

  function ChoppedTimes(str: string, sep: char, n: nat): Option<string>
    decreases n
  {
    if n == 0 then Some(str)
    else
      match Chopped(str, sep)
      case None => None
      case Some(rest) => ChoppedTimes(rest, sep, n - 1)
  }

  /** The number of leading "../" and what follows them. */
  function Stripped(target: string): (nat, string) {
    if StartsWith(target, "../") then
      var (n, tail) := Stripped(target[3..]);
      (n + 1, tail)
    else
      (0, target)
  }

  /** readlink failed, found nothing, or filled the whole buffer. */
  predicate Unreadable(link: Option<string>) {
    link.None? || link.value == "" || |link.value| >= UTIL_PATH_SIZE
  }

  function Resolved(syspath: string, link: Option<string>): string {
    if Unreadable(link) then syspath
    else
      var (back, tail) := Stripped(link.value);
      match ChoppedTimes(syspath, '/', back + 1)
      case None => syspath
      case Some(base) => base + "/" + tail
  }

  // ----- Paths as lists of components -----

  ghost predicate NoSlash(cs: seq<string>) {
    forall i :: 0 <= i < |cs| ==> '/' !in cs[i]
  }

  /** A component that names an entry, where "", "." and ".." do not. */
  ghost predicate Named(c: string) {
    c != "" && c != "." && c != ".."
  }

  ghost predicate AllNamed(cs: seq<string>) {
    forall i :: 0 <= i < |cs| ==> Named(cs[i])
  }

  ghost function AbsPath(cs: seq<string>): string {
    if cs == [] then "" else AbsPath(cs[..|cs| - 1]) + "/" + cs[|cs| - 1]
  }

  /** Walking a path from a directory: ".." goes up, "" and "." stay, anything else goes down; no way up from the root. */
  ghost function Walk(dir: seq<string>, path: seq<string>): Option<seq<string>>
    decreases path
  {
    if path == [] then Some(dir)
    else if Named(path[0]) then Walk(dir + [path[0]], path[1..])
    else if path[0] != ".." then Walk(dir, path[1..])
    else if dir == [] then None
    else Walk(dir[..|dir| - 1], path[1..])
  }

  /** What an absolute path stands for. */
  ghost function Meaning(path: string): Option<seq<string>> {
    Walk([], Split(path, '/'))
  }

  /** What a link stands for: its target, walked from the root if absolute, else from the directory the link is in. */
  ghost function Denoted(cs: seq<string>, target: string): Option<seq<string>>
    requires cs != []
  {
    Walk(if StartsWith(target, "/") then [] else cs[..|cs| - 1], Split(target, '/'))
  }

  ghost function Ups(n: nat): string {
    if n == 0 then "" else "../" + Ups(n - 1)
  }

  /** Every target is some number of times "../", then something that does not start so. */
  lemma {:induction false} EveryTargetSplits(target: string)
    ensures var (n, tail) := Stripped(target); target == Ups(n) + tail && !StartsWith(tail, "../")
  {
    if StartsWith(target, "../") {
      EveryTargetSplits(target[3..]);
      var (n, tail) := Stripped(target[3..]);
      assert target == "../" + target[3..];
      OneMoreUp(n, tail);
    }
  }

  lemma OneMoreUp(n: nat, tail: string)
    ensures Ups(n + 1) + tail == "../" + (Ups(n) + tail)
  {
  }

  lemma {:induction false} StripUps(n: nat, tail: string)
    requires !StartsWith(tail, "../")
    ensures Stripped(Ups(n) + tail) == (n, tail)
  {
    var target := Ups(n) + tail;
    if n == 0 {
      assert target == tail;
    } else {
      StripUps(n - 1, tail);
      assert target == "../" + (Ups(n - 1) + tail);
      assert target[..3] == "../" && target[3..] == Ups(n - 1) + tail;
    }
  }

  lemma {:induction false} ChopComponent(base: string, c: string)
    requires '/' !in c
    ensures Chopped(base + "/" + c, '/') == Some(base)
  {
    var s := base + "/" + c;
    if c == "" {
      assert s[..|s| - 1] == base;
    } else {
      ChopComponent(base, c[..|c| - 1]);
      assert s[..|s| - 1] == base + "/" + c[..|c| - 1];
      assert s[|s| - 1] == c[|c| - 1] && c[|c| - 1] in c;
    }
  }

  lemma {:induction false} ChopComponents(cs: seq<string>, n: nat)
    requires NoSlash(cs)
    ensures ChoppedTimes(AbsPath(cs), '/', n) == if n <= |cs| then Some(AbsPath(cs[..|cs| - n])) else None
    decreases n
  {
    if n == 0 {
      assert cs[..|cs|] == cs;
    } else if cs == [] {
    } else {
      var init := cs[..|cs| - 1];
      ChopComponent(AbsPath(init), cs[|cs| - 1]);
      ChopComponents(init, n - 1);
      if n <= |cs| {
        assert init[..|init| - (n - 1)] == cs[..|cs| - n];
      }
    }
  }

  lemma ResolvedFrom(syspath: string, target: string, back: nat, tail: string, chopped: Option<string>)
    requires 0 < |target| < 1024 && Stripped(target) == (back, tail)
    requires ChoppedTimes(syspath, '/', back + 1) == chopped
    ensures Resolved(syspath, Some(target)) == if chopped.None? then syspath else chopped.value + "/" + tail
  {
  }

  /** What the cutting of strings computes on components. */
  lemma ResolvedComponents(cs: seq<string>, n: nat, tail: string)
    requires NoSlash(cs) && !StartsWith(tail, "../") && 0 < |Ups(n) + tail| < 1024
    ensures Resolved(AbsPath(cs), Some(Ups(n) + tail))
         == if n + 1 <= |cs| then AbsPath(cs[..|cs| - n - 1]) + "/" + tail else AbsPath(cs)
  {
    StripUps(n, tail);
    ResolvedAt(cs, Ups(n) + tail, n, tail);
  }

  lemma ResolvedAt(cs: seq<string>, target: string, n: nat, tail: string)
    requires NoSlash(cs) && 0 < |target| < 1024 && Stripped(target) == (n, tail)
    ensures Resolved(AbsPath(cs), Some(target))
         == if n + 1 <= |cs| then AbsPath(cs[..|cs| - n - 1]) + "/" + tail else AbsPath(cs)
  {
    var chopped := if n + 1 <= |cs| then Some(AbsPath(cs[..|cs| - n - 1])) else None;
    ChopComponents(cs, n + 1);
    ResolvedFrom(AbsPath(cs), target, n, tail, chopped);
  }

  /** A link that cannot be read, is empty or fills the buffer leaves the path as it is. */
  lemma UnreadableLinks(syspath: string, link: Option<string>)
    requires link == None || |link.value| == 0 || |link.value| >= 1024
    ensures Resolved(syspath, link) == syspath
  {
  }

  // ----- Walking -----

  lemma {:induction false} WalkUps(dir: seq<string>, n: nat, tail: string)
    ensures Walk(dir, Split(Ups(n) + tail, '/')) == if n <= |dir| then Walk(dir[..|dir| - n], Split(tail, '/')) else None
    decreases n
  {
    if n == 0 {
      assert Ups(0) + tail == tail && dir[..|dir|] == dir;
    } else {
      var rest := Ups(n - 1) + tail;
      assert Ups(n) + tail == ".." + ['/'] + rest;
      SplitAfterPart("..", '/', rest);
      if dir != [] {
        WalkUps(dir[..|dir| - 1], n - 1, tail);
        if n <= |dir| {
          assert dir[..|dir| - 1][..|dir| - n] == dir[..|dir| - n];
        }
      }
    }
  }

  lemma {:induction false} WalkNamed(dir: seq<string>, base: seq<string>, rest: seq<string>)
    requires AllNamed(base)
    ensures Walk(dir, base + rest) == Walk(dir + base, rest)
    decreases base
  {
    if base == [] {
      assert base + rest == rest && dir + base == dir;
    } else {
      assert (base + rest)[0] == base[0] && (base + rest)[1..] == base[1..] + rest;
      WalkNamed(dir + [base[0]], base[1..], rest);
      assert dir + [base[0]] + base[1..] == dir + base;
    }
  }

  /** A walk that does not leave `dir` upwards goes the same way below any other directory. */
  lemma {:induction false} WalkBelow(above: seq<string>, dir: seq<string>, path: seq<string>)
    requires Walk(dir, path).Some?
    ensures Walk(above + dir, path) == Some(above + Walk(dir, path).value)
    decreases path
  {
    if path != [] {
      if Named(path[0]) {
        WalkBelow(above, dir + [path[0]], path[1..]);
        assert above + (dir + [path[0]]) == (above + dir) + [path[0]];
      } else if path[0] != ".." {
        WalkBelow(above, dir, path[1..]);
      } else {
        WalkBelow(above, dir[..|dir| - 1], path[1..]);
        assert (above + dir)[..|above + dir| - 1] == above + dir[..|dir| - 1];
      }
    }
  }

  lemma {:induction false} WalkLength(dir: seq<string>, path: seq<string>)
    ensures AllNamed(path) ==> Walk(dir, path) == Some(dir + path)
    ensures Walk(dir, path).Some? ==> |Walk(dir, path).value| <= |dir| + |path|
    ensures Walk(dir, path).Some? && |Walk(dir, path).value| == |dir| + |path| ==> AllNamed(path)
    decreases path
  {
    if path == [] {
      assert dir + path == dir;
    } else if Named(path[0]) {
      WalkLength(dir + [path[0]], path[1..]);
      assert (dir + [path[0]]) + path[1..] == dir + path;
      assert AllNamed(path[1..]) ==> AllNamed(path);
    } else if path[0] != ".." {
      WalkLength(dir, path[1..]);
    } else if dir != [] {
      WalkLength(dir[..|dir| - 1], path[1..]);
    }
  }

  lemma {:induction false} WalkKeepsNoSlash(dir: seq<string>, path: seq<string>)
    requires NoSlash(dir) && NoSlash(path)
    ensures Walk(dir, path).Some? ==> NoSlash(Walk(dir, path).value)
    decreases path
  {
    if path != [] {
      if Named(path[0]) {
        WalkKeepsNoSlash(dir + [path[0]], path[1..]);
      } else if path[0] != ".." {
        WalkKeepsNoSlash(dir, path[1..]);
      } else if dir != [] {
        WalkKeepsNoSlash(dir[..|dir| - 1], path[1..]);
      }
    }
  }

  // ----- Strings and components -----

  lemma {:induction false} SplitBelow(base: seq<string>, tail: string)
    requires NoSlash(base)
    ensures Split(AbsPath(base) + "/" + tail, '/') == [""] + base + Split(tail, '/')
    decreases |base|
  {
    if base == [] {
      SplitAfterPart("", '/', tail);
      assert "" + ['/'] + tail == AbsPath(base) + "/" + tail;
      assert [""] + base + Split(tail, '/') == [""] + Split(tail, '/');
    } else {
      var init, last := base[..|base| - 1], base[|base| - 1];
      var below := last + "/" + tail;
      SplitBelow(init, below);
      SplitAfterPart(last, '/', tail);
      MoveDown(AbsPath(init), last, tail);
      Regroup(init, last, Split(tail, '/'));
      assert base == init + [last];
    }
  }

  lemma MoveDown(above: string, last: string, tail: string)
    ensures (above + "/" + last) + "/" + tail == above + "/" + (last + "/" + tail)
  {
  }

  lemma Regroup(init: seq<string>, last: string, rest: seq<string>)
    ensures [""] + init + ([last] + rest) == [""] + (init + [last]) + rest
  {
  }

  lemma SplitAbsPath(cs: seq<string>)
    requires NoSlash(cs)
    ensures Split(AbsPath(cs), '/') == [""] + cs
  {
    if cs == [] {
      SplitPart("", '/');
    } else {
      var init, last := cs[..|cs| - 1], cs[|cs| - 1];
      SplitBelow(init, last);
      SplitPart(last, '/');
      assert cs == init + [last];
    }
  }

  lemma {:induction false} AbsPathAppend(cs: seq<string>, tail: seq<string>)
    requires tail != []
    ensures AbsPath(cs + tail) == AbsPath(cs) + "/" + Join(tail, '/')
    decreases tail
  {
    if |tail| == 1 {
      assert (cs + tail)[..|cs|] == cs;
    } else {
      AbsPathAppend(cs + [tail[0]], tail[1..]);
      assert cs + tail == (cs + [tail[0]]) + tail[1..];
      assert (cs + [tail[0]])[..|cs|] == cs;
      assert [tail[0]] + tail[1..] == tail;
    }
  }

  lemma MeaningBelow(base: seq<string>, tail: string)
    requires NoSlash(base) && AllNamed(base)
    ensures Meaning(AbsPath(base) + "/" + tail) == Walk(base, Split(tail, '/'))
  {
    SplitBelow(base, tail);
    WalkFromRoot(base, Split(tail, '/'));
  }

  lemma WalkFromRoot(base: seq<string>, parts: seq<string>)
    requires AllNamed(base)
    ensures Walk([], [""] + base + parts) == Walk(base, parts)
  {
    assert ([""] + base + parts)[1..] == base + parts;
    WalkNamed([], base, parts);
    assert [] + base == base;
  }

  lemma BaseOf(cs: seq<string>, n: nat)
    requires n < |cs|
    ensures cs[..|cs| - 1][..|cs| - 1 - n] == cs[..|cs| - n - 1]
  {
  }

  /**
   The result stands for what the link stands for: for every relative target that stays
   below the root on its leading "../", "." and ".." and empty components further on
   included. A target leading above the root leaves the path unchanged. An absolute target
   is taken as relative, which is right only for a link in the root directory.
   */
  lemma ResolvesWhatItDenotes(cs: seq<string>, n: nat, tail: string)
    requires cs != [] && NoSlash(cs) && AllNamed(cs)
    requires !StartsWith(tail, "../") && 0 < |Ups(n) + tail| < 1024
    ensures var target := Ups(n) + tail;
            var result := Resolved(AbsPath(cs), Some(target));
            && (n >= |cs| ==> Denoted(cs, target) == None && result == AbsPath(cs))
            && (n < |cs| && !StartsWith(target, "/") ==> Meaning(result) == Denoted(cs, target))
            && (StartsWith(target, "/") && Denoted(cs, target).Some? ==>
                  (Meaning(result) == Denoted(cs, target) <==> |cs| == 1))
  {
    var dir, target := cs[..|cs| - 1], Ups(n) + tail;
    UpsIsRelative(n, tail);
    WalksAsResolved(cs, n, tail);
    if StartsWith(target, "/") && Denoted(cs, target).Some? {
      AnywhereBelow(dir, Split(target, '/'));
    }
  }

  /** The result stands for the target walked from the directory of the link, absolute or not. */
  lemma WalksAsResolved(cs: seq<string>, n: nat, tail: string)
    requires cs != [] && NoSlash(cs) && AllNamed(cs)
    requires !StartsWith(tail, "../") && 0 < |Ups(n) + tail| < 1024
    ensures var result := Resolved(AbsPath(cs), Some(Ups(n) + tail));
            var walked := Walk(cs[..|cs| - 1], Split(Ups(n) + tail, '/'));
            if n < |cs| then Meaning(result) == walked else walked == None && result == AbsPath(cs)
  {
    ResolvedComponents(cs, n, tail);
    WalkUps(cs[..|cs| - 1], n, tail);
    if n < |cs| {
      BaseOf(cs, n);
      MeaningBelow(cs[..|cs| - n - 1], tail);
    }
  }

  lemma UpsIsRelative(n: nat, tail: string)
    ensures n > 0 ==> !StartsWith(Ups(n) + tail, "/")
  {
    assert n > 0 ==> (Ups(n) + tail)[0] == '.';
  }

  /** Walking the same way from the root and from a directory ends in the same place only if they are the same. */
  lemma AnywhereBelow(dir: seq<string>, path: seq<string>)
    requires Walk([], path).Some?
    ensures Walk(dir, path) == Walk([], path) <==> dir == []
  {
    WalkBelow(dir, [], path);
    assert dir + [] == dir;
  }

  /** The result is written as components down from the root exactly when the rest of the target names its way down. */
  lemma ResultIsNormalIff(cs: seq<string>, n: nat, tail: string)
    requires n < |cs| && NoSlash(cs) && AllNamed(cs)
    requires !StartsWith(tail, "../") && 0 < |Ups(n) + tail| < 1024 && !StartsWith(Ups(n) + tail, "/")
    ensures var denoted := Denoted(cs, Ups(n) + tail);
            denoted.Some? && Resolved(AbsPath(cs), Some(Ups(n) + tail)) == AbsPath(denoted.value)
            <==> AllNamed(Split(tail, '/'))
  {
    ResolvedComponents(cs, n, tail);
    WalkUps(cs[..|cs| - 1], n, tail);
    BaseOf(cs, n);
    NormalBelowIff(cs[..|cs| - n - 1], tail);
  }

  lemma NormalBelowIff(base: seq<string>, tail: string)
    requires NoSlash(base)
    ensures var walked := Walk(base, Split(tail, '/'));
            walked.Some? && AbsPath(base) + "/" + tail == AbsPath(walked.value) <==> AllNamed(Split(tail, '/'))
  {
    var parts := Split(tail, '/');
    WalkLength(base, parts);
    if AllNamed(parts) {
      AbsPathAppend(base, parts);
      JoinSplit(tail, '/');
    } else if Walk(base, parts).Some? {
      PartsHaveNoSeparator(tail, '/');
      WalkKeepsNoSlash(base, parts);
      ShorterIsOther(base, tail, Walk(base, parts).value);
    }
  }

  lemma ShorterIsOther(base: seq<string>, tail: string, walked: seq<string>)
    requires NoSlash(base) && NoSlash(walked) && walked != base + Split(tail, '/')
    ensures AbsPath(base) + "/" + tail != AbsPath(walked)
  {
    SplitBelow(base, tail);
    SplitAbsPath(walked);
    FirstOf(base, Split(tail, '/'));
    SplitDiffers(AbsPath(base) + "/" + tail, AbsPath(walked), base + Split(tail, '/'), walked);
  }

  lemma FirstOf(base: seq<string>, parts: seq<string>)
    ensures [""] + base + parts == [""] + (base + parts)
  {
  }

  lemma SplitDiffers(s: string, t: string, a: seq<string>, b: seq<string>)
    requires Split(s, '/') == [""] + a && Split(t, '/') == [""] + b && a != b
    ensures s != t
  {
    assert ([""] + a)[1..] == a && ([""] + b)[1..] == b;
  }

  // ----- The code -----

  method ChopTail(str: string, sep: char) returns (found: bool, rest: string)
    ensures match Chopped(str, sep)
            case None => !found && rest == str
            case Some(base) => found && rest == base
  {
    var pos := |str|;
    assert str[..pos] == str;
    while pos > 0 && str[pos - 1] != sep
      invariant 0 <= pos <= |str|
      invariant Chopped(str, sep) == Chopped(str[..pos], sep)
    {
      assert str[..pos][..pos - 1] == str[..pos - 1];
      pos := pos - 1;
    }
    if pos == 0 {
      return false, str;
    }
    assert str[..pos][..pos - 1] == str[..pos - 1];
    return true, str[..pos - 1];
  }

  method ResolveSymLink(syspath: string, link: Option<string>) returns (path: string)
    ensures path == Resolved(syspath, link)
  {
    if link.None? || |link.value| == 0 || |link.value| >= UTIL_PATH_SIZE {
      return syspath;
    }
    var tail := link.value;
    var back := 0;
    while StartsWith(tail, "../")
      invariant Stripped(link.value) == (back + Stripped(tail).0, Stripped(tail).1)
      decreases |tail|
    {
      tail := tail[3..];
      back := back + 1;
    }
    var base := syspath;
    var i := 0;
    while i <= back
      invariant 0 <= i <= back + 1
      invariant ChoppedTimes(syspath, '/', back + 1) == ChoppedTimes(base, '/', back + 1 - i)
    {
      var found, rest := ChopTail(base, '/');
      if !found {
        return syspath;
      }
      base := rest;
      i := i + 1;
    }
    return base + "/" + tail;
  }
}
