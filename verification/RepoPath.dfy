// Repo-relative paths: dropping `.`, folding `..` into the segment before it.
module RepoPath {
  import opened Basics
  import opened Text

  // Components of a Unix path as `Path::components` reports them.
  datatype Component = RootDir | CurDir | ParentDir | Normal(name: string)

  predicate IsPlainName(name: string) {
    name != "" && name != "." && name != ".." && '/' !in name
  }

  /** The pieces of a string between slashes. */
  function SplitSlash(s: string): (r: seq<string>)
    ensures r != []
  {
    if s == "" then [""]
    else
      var before, c := SplitSlash(s[..|s| - 1]), s[|s| - 1];
      if c == '/' then before + [""]
      else before[|before| - 1 := before[|before| - 1] + [c]]
  }

  predicate IsAbsolute(path: string) {
    path != "" && path[0] == '/'
  }

  /** Empty pieces and `.` name nothing. */
  function Steps(pieces: seq<string>): seq<Component> {
    if pieces == [] then []
    else
      var last := pieces[|pieces| - 1];
      Steps(pieces[..|pieces| - 1]) +
      (if last == "" || last == "." then [] else if last == ".." then [ParentDir] else [Normal(last)])
  }

  /** A `.` is reported only when a relative path begins with it. */
  function Components(path: string): seq<Component> {
    (if IsAbsolute(path) then [RootDir] else if SplitSlash(path)[0] == "." then [CurDir] else [])
    + Steps(SplitSlash(path))
  }

  // ----- normalising -----

  /** What one component does to the parts collected so far. */
  function Fold(parts: seq<string>, c: Component): seq<string> {
    match c
    case ParentDir =>
      if parts != [] && parts[|parts| - 1] != ".." then parts[..|parts| - 1] else parts + [".."]
    case Normal(name) => parts + [name]
    case _ => parts
  }

  function FoldAll(parts: seq<string>, cs: seq<Component>): seq<string> {
    if cs == [] then parts else Fold(FoldAll(parts, cs[..|cs| - 1]), cs[|cs| - 1])
  }

  lemma FoldSnoc(parts: seq<string>, cs: seq<Component>, c: Component)
    ensures FoldAll(parts, cs + [c]) == Fold(FoldAll(parts, cs), c)
  {
    hide Fold;
    assert (cs + [c])[..|cs|] == cs;
  }

  lemma FoldNothing(parts: seq<string>)
    ensures FoldAll(parts, []) == parts
  {
  }

  function Normalised(path: string): string {
    Join(FoldAll([], Components(path)), "/")
  }

  method NormaliseRepoPath(path: string) returns (r: string)
    ensures r == Normalised(path)
  {
    hide Components, FoldAll, Join;
    var components := Components(path);
    var parts: seq<string> := [];
    var i := 0;
    FoldNothing([]);
    assert components[..0] == [];
    while i < |components|
      invariant 0 <= i <= |components|
      invariant parts == FoldAll([], components[..i])
    {
      assert components[..i + 1] == components[..i] + [components[i]];
      FoldSnoc([], components[..i], components[i]);
      match components[i] {
        case CurDir =>
        case ParentDir =>
          if parts != [] && parts[|parts| - 1] != ".." {
            parts := parts[..|parts| - 1];
          } else {
            parts := parts + [".."];
          }
        case Normal(name) =>
          parts := parts + [name];
        case RootDir =>
      }
      i := i + 1;
    }
    assert components[..i] == components;
    r := Join(parts, "/");
  }

  // ----- the shape of the result -----

  predicate WellFormed(cs: seq<Component>) {
    forall k :: 0 <= k < |cs| && cs[k].Normal? ==> IsPlainName(cs[k].name)
  }

  /** Some `..` first, then plain names only. */
  predicate IsNormal(parts: seq<string>, ups: nat) {
    && ups <= |parts|
    && (forall k :: 0 <= k < ups ==> parts[k] == "..")
    && (forall k :: ups <= k < |parts| ==> IsPlainName(parts[k]))
  }

  lemma PlainIsNoParent(parts: seq<string>)
    ensures forall k :: 0 <= k < |parts| && IsPlainName(parts[k]) ==> parts[k] != ".."
  {
  }

  lemma {:induction false} FoldIsNormal(cs: seq<Component>) returns (ups: nat)
    requires WellFormed(cs)
    ensures IsNormal(FoldAll([], cs), ups)
    decreases |cs|
  {
    hide IsPlainName, FoldAll;
    if cs == [] {
      ups := 0;
      FoldNothing([]);
    } else {
      ups := FoldIsNormal(cs[..|cs| - 1]);
      var parts := FoldAll([], cs[..|cs| - 1]);
      assert cs == cs[..|cs| - 1] + [cs[|cs| - 1]];
      FoldSnoc([], cs[..|cs| - 1], cs[|cs| - 1]);
      PlainIsNoParent(parts);
      if cs[|cs| - 1] == ParentDir && !(parts != [] && parts[|parts| - 1] != "..") {
        assert ups == |parts|;
        ups := ups + 1;
      }
    }
  }

  lemma {:induction false} PiecesHaveNoSlash(s: string)
    ensures forall k :: 0 <= k < |SplitSlash(s)| ==> '/' !in SplitSlash(s)[k]
    decreases |s|
  {
    if s != "" {
      PiecesHaveNoSlash(s[..|s| - 1]);
    }
  }

  lemma {:induction false} StepsWellFormed(pieces: seq<string>)
    requires forall k :: 0 <= k < |pieces| ==> '/' !in pieces[k]
    ensures WellFormed(Steps(pieces))
    decreases |pieces|
  {
    if pieces != [] {
      StepsWellFormed(pieces[..|pieces| - 1]);
    }
  }

  lemma ComponentsWellFormed(path: string)
    ensures WellFormed(Components(path))
  {
    PiecesHaveNoSlash(path);
    StepsWellFormed(SplitSlash(path));
  }

  // ----- reading the result back -----

  lemma SplitSnoc(s: string, c: char)
    ensures SplitSlash(s + [c]) == Extended(SplitSlash(s), c)
  {
    assert (s + [c])[..|s|] == s;
  }

  /** One more character: a slash begins a piece, anything else continues the last. */
  function Extended(pieces: seq<string>, c: char): seq<string>
    requires pieces != []
  {
    if c == '/' then pieces + [""] else pieces[|pieces| - 1 := pieces[|pieces| - 1] + [c]]
  }

  lemma ExtendedJoin(a: seq<string>, b: seq<string>, c: char)
    requires b != []
    ensures Extended(a + b, c) == a + Extended(b, c)
  {
  }

  lemma {:induction false} SplitJoins(a: string, b: string)
    ensures SplitSlash(a + "/" + b) == SplitSlash(a) + SplitSlash(b)
    decreases |b|
  {
    hide Extended;
    if b == "" {
      assert a + "/" + b == a + ['/'];
      SplitSnoc(a, '/');
      ExtendedBySlash(SplitSlash(a));
    } else {
      hide SplitSlash;
      var init, c := b[..|b| - 1], b[|b| - 1];
      assert b == init + [c] && a + "/" + b == a + "/" + init + [c];
      SplitJoins(a, init);
      SplitSnoc(a + "/" + init, c);
      SplitSnoc(init, c);
      ExtendedJoin(SplitSlash(a), SplitSlash(init), c);
    }
  }

  lemma ExtendedBySlash(pieces: seq<string>)
    requires pieces != []
    ensures Extended(pieces, '/') == pieces + [""]
  {
  }

  lemma {:induction false} StepsJoin(a: seq<string>, b: seq<string>)
    ensures Steps(a + b) == Steps(a) + Steps(b)
    decreases |b|
  {
    if b == [] {
      assert a + b == a;
    } else {
      assert (a + b)[..|a + b| - 1] == a + b[..|b| - 1];
      StepsJoin(a, b[..|b| - 1]);
    }
  }

  lemma {:induction false} SplitOfPiece(s: string)
    requires '/' !in s
    ensures SplitSlash(s) == [s]
    decreases |s|
  {
    if s != "" {
      SplitOfPiece(s[..|s| - 1]);
      assert s == s[..|s| - 1] + [s[|s| - 1]];
    }
  }

  /** The component a part stands for. */
  function PartComponent(part: string): Component {
    if part == ".." then ParentDir else Normal(part)
  }

  function PartComponents(parts: seq<string>): (r: seq<Component>)
    ensures |r| == |parts| && forall k :: 0 <= k < |r| ==> r[k] == PartComponent(parts[k])
  {
    seq(|parts|, k requires 0 <= k < |parts| => PartComponent(parts[k]))
  }

  lemma PartsSnoc(parts: seq<string>, last: string)
    ensures PartComponents(parts + [last]) == PartComponents(parts) + [PartComponent(last)]
  {
    hide PartComponent;
  }

  predicate AllParts(parts: seq<string>) {
    forall k :: 0 <= k < |parts| ==> parts[k] == ".." || IsPlainName(parts[k])
  }

  lemma StepsOfOne(part: string)
    ensures Steps([""]) == []
    ensures part == ".." || IsPlainName(part) ==> Steps([part]) == [PartComponent(part)]
  {
    assert [part][..0] == [] && [""][..0] == [];
  }

  lemma JoinCons(parts: seq<string>)
    requires 1 < |parts|
    ensures Join(parts, "/") == parts[0] + "/" + Join(parts[1..], "/")
    ensures PartComponents(parts) == [PartComponent(parts[0])] + PartComponents(parts[1..])
  {
  }

  lemma {:induction false} JoinedSteps(parts: seq<string>)
    requires AllParts(parts)
    ensures Steps(SplitSlash(Join(parts, "/"))) == PartComponents(parts)
    ensures !IsAbsolute(Join(parts, "/"))
    ensures parts != [] ==> SplitSlash(Join(parts, "/"))[0] == parts[0]
    decreases |parts|
  {
    hide Steps, SplitSlash, PartComponent;
    if parts == [] {
      SplitOfPiece("");
      StepsOfOne("");
    } else {
      StepsOfOne(parts[0]);
      SplitOfPiece(parts[0]);
      if |parts| == 1 {
        assert Join(parts, "/") == parts[0] && PartComponents(parts) == [PartComponent(parts[0])];
      } else {
        hide Join;
        var rest := Join(parts[1..], "/");
        JoinCons(parts);
        JoinedSteps(parts[1..]);
        SplitJoins(parts[0], rest);
        StepsJoin([parts[0]], SplitSlash(rest));
      }
    }
  }

  /** The components of joined parts are the parts themselves. */
  lemma JoinedComponents(parts: seq<string>)
    requires AllParts(parts)
    ensures Components(Join(parts, "/")) == PartComponents(parts)
  {
    JoinedSteps(parts);
    if parts == [] {
      assert SplitSlash("")[0] == "";
    }
  }

  /** Folding parts that are already normal gives them back. */
  lemma {:induction false} NormalPartsStay(parts: seq<string>, ups: nat)
    requires IsNormal(parts, ups)
    ensures FoldAll([], PartComponents(parts)) == parts
    decreases |parts|
  {
    hide PartComponents, FoldAll;
    if parts == [] {
      assert PartComponents(parts) == [];
      FoldNothing([]);
    } else {
      var before, last := parts[..|parts| - 1], parts[|parts| - 1];
      NormalPartsStay(before, Min(ups, |before|));
      assert parts == before + [last];
      PartsSnoc(before, last);
      FoldSnoc([], PartComponents(before), PartComponent(last));
    }
  }

  lemma NormalisedParts(path: string) returns (parts: seq<string>, ups: nat)
    ensures parts == FoldAll([], Components(path)) && Normalised(path) == Join(parts, "/")
    ensures IsNormal(parts, ups) && AllParts(parts)
    ensures Components(Normalised(path)) == PartComponents(parts)
  {
    ComponentsWellFormed(path);
    parts := FoldAll([], Components(path));
    ups := FoldIsNormal(Components(path));
    JoinedComponents(parts);
  }

  /** The result is some number of `..` followed by plain names. */
  lemma ResultIsNormal(path: string) returns (ups: nat)
    ensures var cs := Components(Normalised(path));
            && ups <= |cs|
            && (forall k :: 0 <= k < ups ==> cs[k] == ParentDir)
            && (forall k :: ups <= k < |cs| ==> cs[k].Normal? && IsPlainName(cs[k].name))
  {
    var parts;
    parts, ups := NormalisedParts(path);
  }

  /** Normalising twice is normalising once. */
  lemma Idempotent(path: string)
    ensures Normalised(Normalised(path)) == Normalised(path)
  {
    var parts, ups := NormalisedParts(path);
    NormalPartsStay(parts, ups);
  }

  // ----- joining -----

  /** `Path::join` */
  function PathJoin(a: string, b: string): string {
    if IsAbsolute(b) || a == "" then b
    else if a[|a| - 1] == '/' then a + b
    else a + "/" + b
  }

  lemma {:induction false} FoldJoins(parts: seq<string>, a: seq<Component>, b: seq<Component>)
    ensures FoldAll(parts, a + b) == FoldAll(FoldAll(parts, a), b)
    decreases |b|
  {
    if b == [] {
      assert a + b == a;
    } else {
      assert (a + b)[..|a + b| - 1] == a + b[..|b| - 1];
      FoldJoins(parts, a, b[..|b| - 1]);
    }
  }

  /** Only the steps matter: a root or a leading `.` folds to nothing. */
  lemma FoldSteps(parts: seq<string>, path: string)
    ensures FoldAll(parts, Components(path)) == FoldAll(parts, Steps(SplitSlash(path)))
  {
    var steps := Steps(SplitSlash(path));
    var head := if IsAbsolute(path) then [RootDir] else if SplitSlash(path)[0] == "." then [CurDir] else [];
    FoldJoins(parts, head, steps);
    if head != [] {
      assert head[..0] == [];
    }
  }

  lemma NoSteps()
    ensures SplitSlash("") == [""] && Steps([""]) == []
  {
    StepsOfOne("");
  }

  lemma JoinSteps(a: string, b: string)
    requires !IsAbsolute(b)
    ensures Steps(SplitSlash(PathJoin(a, b))) == Steps(SplitSlash(a)) + Steps(SplitSlash(b))
  {
    hide SplitSlash, Steps;
    NoSteps();
    if a == "" {
      assert [] + Steps(SplitSlash(b)) == Steps(SplitSlash(b));
    } else if a[|a| - 1] == '/' {
      var init := a[..|a| - 1];
      assert a == init + "/" + "" && a + b == init + "/" + b;
      SplitJoins(init, "");
      SplitJoins(init, b);
      StepsJoin(SplitSlash(init), SplitSlash(b));
      StepsJoin(SplitSlash(init), [""]);
      assert Steps(SplitSlash(init)) + [] == Steps(SplitSlash(init));
    } else {
      SplitJoins(a, b);
      StepsJoin(SplitSlash(a), SplitSlash(b));
    }
  }

  /** Normalising the first half before joining makes no difference. */
  lemma JoinAfterNormalising(a: string, b: string)
    ensures Normalised(PathJoin(a, b)) == Normalised(PathJoin(Normalised(a), b))
  {
    if !IsAbsolute(b) {
      var parts, ups := NormalisedParts(a);
      NormalPartsStay(parts, ups);
      JoinSteps(a, b);
      JoinSteps(Normalised(a), b);
      FoldSteps([], PathJoin(a, b));
      FoldSteps([], PathJoin(Normalised(a), b));
      FoldSteps([], a);
      FoldSteps([], Normalised(a));
      FoldJoins([], Steps(SplitSlash(a)), Steps(SplitSlash(b)));
      FoldJoins([], Steps(SplitSlash(Normalised(a))), Steps(SplitSlash(b)));
    }
  }

  /** A `.` and a doubled slash say nothing. */
  lemma DotsVanish(a: string, b: string)
    requires !IsAbsolute(b)
    ensures Normalised(PathJoin(PathJoin(a, "."), b)) == Normalised(PathJoin(a, b))
    ensures Normalised(a + "//" + b) == Normalised(a + "/" + b)
  {
    hide SplitSlash, Steps, FoldAll, PathJoin;
    NothingInDots();
    JoinSteps(a, ".");
    JoinSteps(PathJoin(a, "."), b);
    JoinSteps(a, b);
    assert Steps(SplitSlash(a)) + [] == Steps(SplitSlash(a));
    FoldSteps([], PathJoin(PathJoin(a, "."), b));
    FoldSteps([], PathJoin(a, b));
    assert a + "//" + b == a + "/" + "" + "/" + b;
    SplitJoins(a + "/" + "", b);
    SplitJoins(a, "");
    SplitJoins(a, b);
    StepsJoin(SplitSlash(a + "/" + ""), SplitSlash(b));
    StepsJoin(SplitSlash(a), SplitSlash(""));
    StepsJoin(SplitSlash(a), SplitSlash(b));
    FoldSteps([], a + "//" + b);
    FoldSteps([], a + "/" + b);
  }

  lemma NothingInDots()
    ensures Steps(SplitSlash(".")) == [] && Steps(SplitSlash("")) == []
  {
    SplitOfPiece(".");
    NoSteps();
    assert ["."][..0] == [];
  }

  /** Into a directory and back again leads nowhere. */
  lemma NameAndBack(a: string, name: string)
    requires IsPlainName(name)
    ensures Normalised(PathJoin(PathJoin(a, name), "..")) == Normalised(a)
  {
    hide SplitSlash, Steps, FoldAll, PathJoin;
    SplitOfPiece(name);
    SplitOfPiece("..");
    StepsOfOne(name);
    StepsOfOne("..");
    JoinSteps(a, name);
    JoinSteps(PathJoin(a, name), "..");
    var steps, parts := Steps(SplitSlash(a)), FoldAll([], Components(a));
    FoldSteps([], a);
    FoldSteps([], PathJoin(PathJoin(a, name), ".."));
    FoldSnoc([], steps, Normal(name));
    FoldSnoc([], steps + [Normal(name)], ParentDir);
    assert (parts + [name])[..|parts|] == parts;
  }

  /** A path in normal form, parent steps and then plain names, stays as it is. */
  lemma NormalPathsStay(parts: seq<string>, ups: nat)
    requires IsNormal(parts, ups)
    ensures Normalised(Join(parts, "/")) == Join(parts, "/")
  {
    hide FoldAll, Join, Components;
    assert AllParts(parts);
    JoinedComponents(parts);
    NormalPartsStay(parts, ups);
  }

  // ----- meaning -----

  /** Where one component leads from a directory, given by its names from the root; `..` at the root stays there. */
  function Move(at: seq<string>, c: Component): seq<string> {
    match c
    case RootDir => []
    case CurDir => at
    case ParentDir => if at == [] then [] else at[..|at| - 1]
    case Normal(name) => at + [name]
  }

  /** Walking from a directory. */
  function Walk(base: seq<string>, cs: seq<Component>): seq<string> {
    if cs == [] then base else Move(Walk(base, cs[..|cs| - 1]), cs[|cs| - 1])
  }

  lemma WalkSnoc(base: seq<string>, cs: seq<Component>, c: Component)
    ensures Walk(base, cs + [c]) == Move(Walk(base, cs), c)
  {
    hide Move;
    assert (cs + [c])[..|cs|] == cs;
  }

  lemma WalkNowhere(base: seq<string>)
    ensures Walk(base, []) == base && PartComponents([]) == []
  {
  }

  predicate NoRoot(cs: seq<Component>) {
    forall k :: 0 <= k < |cs| ==> cs[k] != RootDir
  }

  /** Folding a component into the parts moves the place they lead to. */
  lemma FoldMoves(base: seq<string>, parts: seq<string>, c: Component)
    requires c != RootDir && (c.Normal? ==> c.name != "..")
    ensures Walk(base, PartComponents(Fold(parts, c))) == Move(Walk(base, PartComponents(parts)), c)
  {
    hide Walk, PartComponents;
    if c.Normal? {
      PartsSnoc(parts, c.name);
      WalkSnoc(base, PartComponents(parts), c);
    } else if c == ParentDir && parts != [] && parts[|parts| - 1] != ".." {
      var shorter, last := parts[..|parts| - 1], parts[|parts| - 1];
      assert parts == shorter + [last];
      PartsSnoc(shorter, last);
      WalkSnoc(base, PartComponents(shorter), Normal(last));
      var at := Walk(base, PartComponents(shorter));
      assert (at + [last])[..|at|] == at;
    } else if c == ParentDir {
      PartsSnoc(parts, "..");
      WalkSnoc(base, PartComponents(parts), ParentDir);
    }
  }

  lemma {:induction false} WalkOfFold(base: seq<string>, cs: seq<Component>)
    requires NoRoot(cs) && WellFormed(cs)
    ensures Walk(base, PartComponents(FoldAll([], cs))) == Walk(base, cs)
    decreases |cs|
  {
    hide Walk, PartComponents, FoldAll, Fold, Move;
    if cs == [] {
      FoldNothing([]);
      WalkNowhere(base);
    } else {
      var before, c := cs[..|cs| - 1], cs[|cs| - 1];
      assert cs == before + [c];
      WalkOfFold(base, before);
      FoldSnoc([], before, c);
      WalkSnoc(base, before, c);
      FoldMoves(base, FoldAll([], before), c);
    }
  }

  lemma {:induction false} StepsHaveNoRoot(pieces: seq<string>)
    ensures NoRoot(Steps(pieces))
    decreases |pieces|
  {
    if pieces != [] {
      StepsHaveNoRoot(pieces[..|pieces| - 1]);
    }
  }

  /** A relative path and its normal form lead from any directory to the same place. */
  lemma MeaningIsKept(base: seq<string>, path: string)
    requires !IsAbsolute(path)
    ensures Walk(base, Components(Normalised(path))) == Walk(base, Components(path))
  {
    var parts, ups := NormalisedParts(path);
    ComponentsWellFormed(path);
    StepsHaveNoRoot(SplitSlash(path));
    WalkOfFold(base, Components(path));
  }

  lemma {:induction false} WalkLength(base: seq<string>, cs: seq<Component>)
    requires NoRoot(cs)
    requires |cs| <= |base|
    ensures |Walk(base, cs)| + |cs| >= |base|
    decreases |cs|
  {
    if cs != [] {
      WalkLength(base, cs[..|cs| - 1]);
    }
  }

  lemma {:induction false} WalkFromRoot(base: seq<string>, cs: seq<Component>)
    ensures Walk(base, [RootDir] + cs) == Walk([], cs)
    decreases |cs|
  {
    var all := [RootDir] + cs;
    if cs == [] {
    } else {
      assert all[..|all| - 1] == [RootDir] + cs[..|cs| - 1];
      WalkFromRoot(base, cs[..|cs| - 1]);
    }
  }

  /**
   * The meaning is kept from every directory exactly when the path is relative: the
   * root of an absolute one is dropped.
   */
  lemma MeaningKeptExactlyWhenRelative(path: string)
    ensures (forall base :: Walk(base, Components(Normalised(path))) == Walk(base, Components(path)))
              <==> !IsAbsolute(path)
  {
    if IsAbsolute(path) {
      var parts, ups := NormalisedParts(path);
      var cs := Components(Normalised(path));
      var there := Walk([], Steps(SplitSlash(path)));
      var base := seq(|cs| + |there| + 1, k => "d");
      WalkFromRoot(base, Steps(SplitSlash(path)));
      WalkLength(base, cs);
      assert Walk(base, cs) != Walk(base, Components(path));
    } else {
      forall base
        ensures Walk(base, Components(Normalised(path))) == Walk(base, Components(path))
      {
        MeaningIsKept(base, path);
      }
    }
  }
}
