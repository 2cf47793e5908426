/**
 Moving a resource URL up and down its path.  A URL "/a/b/c" has path "/a/b" and name "c"; a URL in
 the root directory has path "/", and the root itself has path "/" and an empty name.
 */
module UrlPaths {
  import opened Strings

  datatype Place = Place(path: string, name: string)

  // ---------------------------------------------------------------- the operations

  function Pop(u: Place): Place {
    if u.path == "/" then Place("/", "")
    else
      var parts := PathParts(u.path);
      if parts == [] then Place("/", "")
      else if |parts| == 1 then Place("/", parts[0])
      else Place(JoinPath(parts[..|parts| - 1]), parts[|parts| - 1])
  }

  /** The text PushDir splits again. */
  function PushText(u: Place, dir: string): string
    requires dir != ""
  {
    (if u.path != "/" then u.path else "") + "/" + u.name + (if dir[0] != '/' then "/" else "") + dir
  }

  /** PushDir.  Something must be left to be the name: the source calls back() on the parts. */
  function Push(u: Place, dir: string): Place
    requires dir != "" ==> PathParts(PushText(u, dir)) != []
  {
    if dir == "" then u
    else
      var parts := PathParts(PushText(u, dir));
      Place(JoinPath(parts[..|parts| - 1]), parts[|parts| - 1])
  }

  /** The path and name of GetLineageReference; the constructor it calls turns "" into "/". */
  function Lineage(u: Place, stepsBack: int): Place {
    if stepsBack <= 0 then Place(if u.path == "" then "/" else u.path, u.name)
    else
      var parts := PathParts(u.path);
      if stepsBack >= |parts| then Place("/", if parts == [] then u.name else parts[0])
      else Place(JoinPath(parts[..|parts| - stepsBack]), parts[|parts| - stepsBack])
  }

  function PopTimes(u: Place, k: nat): Place {
    if k == 0 then u else Pop(PopTimes(u, k - 1))
  }

  // ---------------------------------------------------------------- lineage

  /** The place whose path and name together have the given parts. */
  function AtParts(parts: seq<string>): Place {
    if parts == [] then Place("/", "")
    else if |parts| == 1 then Place("/", parts[0])
    else Place(JoinPath(parts[..|parts| - 1]), parts[|parts| - 1])
  }

  lemma RootHasNoParts()
    ensures PathParts("/") == []
  {
    TokensOne("", '/');
    assert "" + ['/'] + "" == "/";
    TokensAppend("", "", '/');
  }

  lemma PopIsAtParts(u: Place)
    ensures Pop(u) == AtParts(PathParts(u.path))
  {
    RootHasNoParts();
  }

  lemma JoinedPathParts(parts: seq<string>)
    requires Clean(parts, '/')
    ensures var u := AtParts(parts);
            PathParts(u.path) == if parts == [] then [] else parts[..|parts| - 1]
  {
    RootHasNoParts();
    if |parts| > 1 {
      CleanPrefix(parts, '/', |parts| - 1);
      SplitJoinPath(parts[..|parts| - 1]);
    }
  }

  /** The k-th PopDir, for k from 1 on, leaves the parts of the original path but the last k-1. */
  lemma {:induction false} PopTimesIs(u: Place, k: nat)
    requires k > 0
    ensures var parts := PathParts(u.path);
            PopTimes(u, k) == AtParts(if k - 1 <= |parts| then parts[..|parts| - (k - 1)] else [])
  {
    hide PathParts, AtParts, Pop;
    var parts := PathParts(u.path);
    if k == 1 {
      PopIsAtParts(u);
      assert parts[..|parts|] == parts;
      assert PopTimes(u, 0) == u;
    } else {
      PopTimesIs(u, k - 1);
      var front := if k - 2 <= |parts| then parts[..|parts| - (k - 2)] else [];
      PartsAreClean(u.path);
      CleanPrefix(parts, '/', |front|);
      JoinedPathParts(front);
      PopIsAtParts(AtParts(front));
      if k - 1 <= |parts| {
        assert front[..|front| - 1] == parts[..|parts| - (k - 1)];
      }
    }
  }

  lemma PartsAreClean(path: string)
    ensures Clean(PathParts(path), '/')
  {
    TokensAreClean(path, '/');
  }

  lemma LineageIs(u: Place, k: nat)
    requires 0 < k <= |PathParts(u.path)|
    ensures Lineage(u, k) == AtParts(PathParts(u.path)[..|PathParts(u.path)| - (k - 1)])
  {
    hide PathParts, JoinPath;
    var parts := PathParts(u.path);
    var front := parts[..|parts| - (k - 1)];
    assert k < |parts| ==> front[..|front| - 1] == parts[..|parts| - k];
  }

  /** GetLineageReference(k) is k calls of PopDir exactly as long as k does not exceed the number of
      parts of the path; beyond that PopDir goes on to the root and the lineage stays at the top. */
  lemma LineageIsPopsIff(u: Place, k: nat)
    ensures Lineage(u, k) == PopTimes(u, k)
       <==> if k == 0 then u.path != ""
            else k <= |PathParts(u.path)| || (PathParts(u.path) == [] && u.name == "")
  {
    hide PathParts;
    var parts := PathParts(u.path);
    if k > 0 {
      PopTimesIs(u, k);
      PartsAreClean(u.path);
      if k <= |parts| {
        LineageIs(u, k);
      } else {
        assert parts != [] ==> parts[0] in parts;
        if k - 1 <= |parts| {
          assert parts[..|parts| - (k - 1)] == [];
        }
      }
    }
  }

  /** Two steps back from /a/b: the lineage stays at /a, the second PopDir leaves the root. */
  lemma LineageDiffers()
    ensures Lineage(Place("/a", "b"), 2) == Place("/", "a") && PopTimes(Place("/a", "b"), 2) == Place("/", "")
  {
    hide Tokens;
    var u := Place("/a", "b");
    TokensOne("", '/');
    TokensOne("a", '/');
    assert "/a" == "" + ['/'] + "a";
    TokensAppend("", "a", '/');
    assert PathParts("/a") == ["a"];
    PopTimesShift(u, 1);
    PopTimesShift(Pop(u), 0);
    assert Pop(u) == Place("/", "a");
  }

  // ---------------------------------------------------------------- pushing

  /** A place in the form parsing and printing agree on. */
  ghost predicate Canonical(u: Place) {
    && '/' !in u.name
    && (u.path == "/" || (u.name != "" && PathParts(u.path) != [] && u.path == JoinPath(PathParts(u.path))))
  }

  function AllParts(u: Place): seq<string> {
    PathParts(u.path) + PathParts(u.name)
  }

  lemma PushTextParts(u: Place, dir: string)
    requires dir != ""
    ensures PathParts(PushText(u, dir)) == AllParts(u) + PathParts(dir)
  {
    hide Tokens;
    RootHasNoParts();
    TokensOne("", '/');
    var head := if u.path != "/" then u.path else "";
    assert PathParts(head) == PathParts(u.path);
    var rest := if dir[0] == '/' then dir[1..] else dir;
    assert PushText(u, dir) == (head + ['/'] + u.name) + ['/'] + rest;
    TokensAppend(head + ['/'] + u.name, rest, '/');
    TokensAppend(head, u.name, '/');
    TokensAppend("", rest, '/');
    assert dir[0] == '/' ==> dir == "" + ['/'] + rest;
  }

  lemma SinglePart(dir: string)
    requires dir != "" && '/' !in dir
    ensures PathParts(dir) == [dir]
  {
    TokensOne(dir, '/');
  }

  /** What PushDir does to the parts, for any text with one or more of them. */
  lemma PushIs(u: Place, dir: string)
    requires dir != "" && AllParts(u) + PathParts(dir) != []
    ensures PathParts(PushText(u, dir)) != []
    ensures var parts := AllParts(u) + PathParts(dir);
            && Clean(parts, '/')
            && Push(u, dir) == Place(JoinPath(parts[..|parts| - 1]), parts[|parts| - 1])
            && AllParts(Push(u, dir)) == parts
  {
    hide PathParts, JoinPath;
    var parts := AllParts(u) + PathParts(dir);
    PushTextParts(u, dir);
    PartsAreClean(u.path);
    PartsAreClean(u.name);
    PartsAreClean(dir);
    CleanPrefix(parts, '/', |parts| - 1);
    SplitJoinPath(parts[..|parts| - 1]);
    assert parts[|parts| - 1] in parts;
    SinglePart(parts[|parts| - 1]);
    assert parts == parts[..|parts| - 1] + [parts[|parts| - 1]];
  }

  /** PushDir leaves a path, and a place in canonical form, if and only if the place and the pushed
      text have more than one part together.  Otherwise the path is empty instead of "/". */
  lemma PushCanonicalIff(u: Place, dir: string)
    requires dir != "" && AllParts(u) + PathParts(dir) != []
    ensures PathParts(PushText(u, dir)) != []
    ensures Canonical(Push(u, dir)) <==> |AllParts(u) + PathParts(dir)| > 1
    ensures Push(u, dir).path != "" <==> |AllParts(u) + PathParts(dir)| > 1
  {
    hide PathParts, Push;
    var parts := AllParts(u) + PathParts(dir);
    PushIs(u, dir);
    if |parts| > 1 {
      AtPartsCanonical(parts);
      assert |JoinPath(parts[..|parts| - 1])| > 0;
    } else {
      assert parts[..|parts| - 1] == [];
      RootOnly();
    }
  }

  lemma RootOnly()
    ensures PathParts("") == []
  {
    TokensOne("", '/');
  }

  /** Popping what was just pushed restores the place, if and only if it was in canonical form; the
      result is in canonical form in any case. */
  lemma PopPushIff(u: Place, dir: string)
    requires dir != "" && '/' !in dir
    ensures PathParts(PushText(u, dir)) != [] && Push(u, dir).name == dir
    ensures Pop(Push(u, dir)) == AtParts(AllParts(u)) && Canonical(Pop(Push(u, dir)))
    ensures Pop(Push(u, dir)) == u <==> Canonical(u)
  {
    hide PathParts, Push, Canonical, Join;
    var parts := AllParts(u);
    SinglePart(dir);
    PushIs(u, dir);
    assert (parts + [dir])[..|parts|] == parts;
    CleanPrefix(parts + [dir], '/', |parts|);
    SplitJoinPath(parts);
    PopIsAtParts(Push(u, dir));
    AtPartsCanonical(parts);
    if Canonical(u) {
      CanonicalIsAtParts(u);
    }
  }

  lemma AtPartsCanonical(parts: seq<string>)
    requires Clean(parts, '/')
    ensures Canonical(AtParts(parts))
  {
    hide PathParts, Join;
    if |parts| == 1 {
      assert parts[0] in parts;
    } else if |parts| > 1 {
      var front := parts[..|parts| - 1];
      CleanPrefix(parts, '/', |parts| - 1);
      assert parts[|parts| - 1] in parts;
      SplitJoinPath(front);
    }
  }

  lemma CanonicalIsAtParts(u: Place)
    requires Canonical(u)
    ensures AtParts(AllParts(u)) == u
  {
    hide Tokens, Join, JoinPath;
    var parts := AllParts(u);
    RootHasNoParts();
    TokensOne(u.name, '/');
    if u.path == "/" {
      assert parts == PathParts(u.name);
    } else {
      assert parts[..|parts| - 1] == PathParts(u.path);
    }
  }

  /** Directory names, each a single part. */
  predicate SingleParts(dirs: seq<string>) {
    forall i :: 0 <= i < |dirs| ==> dirs[i] != "" && '/' !in dirs[i]
  }

  function PushTimes(u: Place, dirs: seq<string>): Place
    requires SingleParts(dirs)
  {
    if dirs == [] then u
    else
      var v := PushTimes(u, dirs[..|dirs| - 1]);
      PopPushIff(v, dirs[|dirs| - 1]);
      Push(v, dirs[|dirs| - 1])
  }

  lemma {:induction false} PushTimesIs(u: Place, dirs: seq<string>)
    requires SingleParts(dirs) && dirs != []
    ensures var front, last := dirs[..|dirs| - 1], dirs[|dirs| - 1];
            && PushTimes(u, dirs) == Place(JoinPath(AllParts(u) + front), last)
            && PathParts(PushTimes(u, dirs).path) == AllParts(u) + front
            && AllParts(PushTimes(u, dirs)) == AllParts(u) + dirs
    decreases |dirs|
  {
    hide PathParts, Push, JoinPath;
    var front, last := dirs[..|dirs| - 1], dirs[|dirs| - 1];
    var v := PushTimes(u, front);
    if front != [] {
      PushTimesIs(u, front);
    }
    assert AllParts(v) == AllParts(u) + front;
    SinglePart(last);
    PushIs(v, last);
    var parts := AllParts(v) + [last];
    assert parts[..|parts| - 1] == AllParts(v);
    assert AllParts(u) + front + [last] == AllParts(u) + dirs;
    CleanPrefix(parts, '/', |parts| - 1);
    SplitJoinPath(AllParts(v));
  }

  /** Any series of single-part pushes is undone by as many pops if and only if the place was in
      canonical form, the root included.  The first of these pops leads to the place before the last
      push, except that from a place without parts the first push does not leave a canonical one. */
  lemma PushesAreUndoneIff(u: Place, dirs: seq<string>)
    requires SingleParts(dirs) && dirs != []
    ensures PushTimes(u, dirs).name == dirs[|dirs| - 1]
    ensures PopTimes(PushTimes(u, dirs), |dirs|) == u <==> Canonical(u)
    ensures Pop(PushTimes(u, dirs)) == PushTimes(u, dirs[..|dirs| - 1])
       <==> if |dirs| == 1 then Canonical(u) else |AllParts(u)| + |dirs| > 2
  {
    hide PathParts, Canonical, Pop, Push, JoinPath, AtParts, AllParts;
    PushTimesIs(u, dirs);
    PopTimesIs(PushTimes(u, dirs), |dirs|);
    var parts := AllParts(u) + dirs[..|dirs| - 1];
    assert parts[..|parts| - (|dirs| - 1)] == AllParts(u);
    PopPushIff(u, dirs[0]);
    LastPushIff(u, dirs);
  }

  lemma LastPushIff(u: Place, dirs: seq<string>)
    requires SingleParts(dirs) && dirs != []
    ensures Pop(PushTimes(u, dirs)) == PushTimes(u, dirs[..|dirs| - 1])
       <==> if |dirs| == 1 then Canonical(u) else |AllParts(u)| + |dirs| > 2
  {
    hide PathParts, Canonical, Pop, Push, JoinPath, AtParts;
    var front := dirs[..|dirs| - 1];
    PopPushIff(PushTimes(u, front), dirs[|dirs| - 1]);
    if front == [] {
      assert PushTimes(u, front) == u;
    } else {
      var before, last := front[..|front| - 1], front[|front| - 1];
      if before != [] {
        PushTimesIs(u, before);
      }
      assert |AllParts(PushTimes(u, before))| == |AllParts(u)| + |before|;
      SinglePart(last);
      PushCanonicalIff(PushTimes(u, before), last);
    }
  }

  /** Places without parts, the root among them: a push leaves an empty path instead of "/", and so no
      place in canonical form. */
  lemma PushWithoutParts(u: Place, dir: string)
    requires u in {Place("/", ""), Place("//", ""), Place("", "")} && dir != "" && '/' !in dir
    ensures PathParts(PushText(u, dir)) != []
    ensures Push(u, dir) == Place("", dir) && !Canonical(Push(u, dir))
  {
    hide Tokens, PathParts, Canonical;
    RootHasNoParts();
    RootOnly();
    SlashesHaveNoParts();
    SinglePart(dir);
    assert AllParts(u) == [] && [] + [dir] == [dir] && [dir][..0] == [];
    PushIs(u, dir);
    PushCanonicalIff(u, dir);
  }

  lemma SlashesHaveNoParts()
    ensures PathParts("//") == []
  {
    TokensOne("", '/');
    assert "//" == "/" + ['/'] + "" && "/" == "" + ['/'] + "";
    TokensAppend("/", "", '/');
    TokensAppend("", "", '/');
  }

  lemma {:induction false} PopTimesShift(u: Place, k: nat)
    ensures PopTimes(u, k + 1) == PopTimes(Pop(u), k)
  {
    hide Pop;
    if k > 0 {
      PopTimesShift(u, k - 1);
    }
  }
}
