/**
 * Grouping the discovered PFB files into font families: each path is
 * reduced to its base name, the base name is looked up in the merged
 * name map, and the path joins the group named by the first three
 * characters of the font's Berry name.
 */
module Families {
  import opened Wrappers
  import opened Text
  import opened NameMaps

  /** Index of the last `c` in `s`, or -1 (`str.rfind`). */
  function LastIndexOf(s: string, c: char): (r: int)
    ensures -1 <= r < |s|
  {
    if s == [] then -1
    else if s[|s| - 1] == c then |s| - 1
    else LastIndexOf(s[..|s| - 1], c)
  }

  lemma {:induction false} LastIndexOfAbsent(s: string, c: char)
    requires NoChar(s, c)
    ensures LastIndexOf(s, c) == -1
    decreases |s|
  {
    if s != [] {
      LastIndexOfAbsent(s[..|s| - 1], c);
    }
  }

  /** The character at a found index is `c`, and none follows it. */
  lemma {:induction false} LastIndexOfLast(s: string, c: char)
    ensures LastIndexOf(s, c) >= 0 ==> s[LastIndexOf(s, c)] == c
    ensures NoChar(s[LastIndexOf(s, c) + 1..], c)
    decreases |s|
  {
    if s != [] && s[|s| - 1] != c {
      var init := s[..|s| - 1];
      LastIndexOfLast(init, c);
      var k := LastIndexOf(s, c) + 1;
      assert s[k..] == init[k..] + [s[|s| - 1]];
    }
  }

  /** `os.path.basename`: what follows the last `/`. */
  function BaseName(path: string): string {
    path[LastIndexOf(path, '/') + 1..]
  }

  /** The base name is the part of the path after its last `/`, or the
      whole path when there is none. */
  lemma BaseNameShape(path: string)
    ensures EndsWith(path, BaseName(path)) && NoChar(BaseName(path), '/')
    ensures |BaseName(path)| < |path| ==> path[|path| - |BaseName(path)| - 1] == '/'
  {
    LastIndexOfLast(path, '/');
  }

  /** `os.path.splitext(name)[0]` for a name without `/` (Python 2.7):
      the text before the last `.`, unless only dots precede it, in which
      case the name has no extension. */
  function StripExtension(name: string): string {
    var dot := LastIndexOf(name, '.');
    if dot >= 0 && !AllDots(name[..dot]) then name[..dot] else name
  }

  /** What `splitext` removes is a last `.` and what follows it, and
      never everything after a stem of dots alone. */
  lemma StripExtensionShape(name: string)
    ensures StartsWith(name, StripExtension(name))
    ensures StripExtension(name) != name ==>
              var stem := StripExtension(name);
              name[|stem|] == '.' && NoChar(name[|stem| + 1..], '.') && !AllDots(stem)
  {
    LastIndexOfLast(name, '.');
  }

  predicate AllDots(s: string) {
    s == [] || (s[0] == '.' && AllDots(s[1..]))
  }

  lemma {:induction false} NotAllDots(s: string, j: nat)
    requires j < |s| && s[j] != '.'
    ensures !AllDots(s)
    decreases |s|
  {
    if j > 0 && s[0] == '.' {
      NotAllDots(s[1..], j - 1);
    }
  }

  /** The base name a discovered path is looked up under. */
  function ShortName(path: string): string {
    StripExtension(BaseName(path))
  }

  /** `berry[0:3]`: the first three characters, or all of a shorter name. */
  function FamilyCode(berry: string): (r: string)
    ensures |r| == if |berry| < 3 then |berry| else 3
    ensures StartsWith(berry, r)
  {
    if |berry| <= 3 then berry else berry[..3]
  }

  lemma {:induction false} LastIndexOfSplit(a: string, c: char, b: string)
    requires NoChar(b, c)
    ensures LastIndexOf(a + [c] + b, c) == |a|
    decreases |b|
  {
    var s := a + [c] + b;
    if b == [] {
      assert s[|s| - 1] == c;
    } else {
      assert s[|s| - 1] == b[|b| - 1];
      assert s[..|s| - 1] == a + [c] + b[..|b| - 1];
      LastIndexOfSplit(a, c, b[..|b| - 1]);
    }
  }

  /** The short name of `dir/stem.ext` is `stem`, for a stem that is not
      made of dots alone and an extension without dots. */
  lemma ShortNameOfPath(dir: string, stem: string, ext: string)
    requires NoChar(stem, '/') && NoChar(ext, '/') && NoChar(ext, '.')
    requires exists j :: 0 <= j < |stem| && stem[j] != '.'
    ensures ShortName(dir + "/" + stem + "." + ext) == stem
  {
    var name := stem + "." + ext;
    var path := dir + "/" + stem + "." + ext;
    assert path == dir + ['/'] + name;
    assert NoChar(name, '/') by {
      forall i | 0 <= i < |name| ensures name[i] != '/' {
        if i < |stem| {
          assert name[i] == stem[i];
        } else if i > |stem| {
          assert name[i] == ext[i - |stem| - 1];
        }
      }
    }
    LastIndexOfSplit(dir, '/', name);
    assert BaseName(path) == name;
    assert name == stem + ['.'] + ext;
    LastIndexOfSplit(stem, '.', ext);
    var j :| 0 <= j < |stem| && stem[j] != '.';
    assert name[..|stem|] == stem;
    NotAllDots(stem, j);
  }

  /** A path whose base name has no dot is looked up under its base name. */
  lemma ShortNameWithoutExtension(dir: string, name: string)
    requires NoChar(name, '/') && NoChar(name, '.')
    ensures ShortName(dir + "/" + name) == name
  {
    var path := dir + "/" + name;
    assert path == dir + ['/'] + name;
    LastIndexOfSplit(dir, '/', name);
    assert BaseName(path) == name;
    LastIndexOfAbsent(name, '.');
  }

  lemma {:induction false} AllDotsAt(s: string, i: nat)
    requires AllDots(s) && i < |s|
    ensures s[i] == '.'
    decreases |s|
  {
    if i > 0 {
      AllDotsAt(s[1..], i - 1);
    }
  }

  /** A name whose stem is made of dots alone (`.pfb`, `...pfb`) has no
      extension in Python 2.7: it is looked up whole. */
  lemma ShortNameLeadingDots(dir: string, dots: string, ext: string)
    requires AllDots(dots) && NoChar(ext, '/') && NoChar(ext, '.')
    ensures ShortName(dir + "/" + dots + "." + ext) == dots + "." + ext
  {
    var name := dots + "." + ext;
    var path := dir + "/" + dots + "." + ext;
    assert path == dir + ['/'] + name;
    assert NoChar(name, '/') by {
      forall i | 0 <= i < |name| ensures name[i] != '/' {
        if i < |dots| {
          AllDotsAt(dots, i);
          assert name[i] == dots[i];
        } else if i > |dots| {
          assert name[i] == ext[i - |dots| - 1];
        }
      }
    }
    LastIndexOfSplit(dir, '/', name);
    assert BaseName(path) == name;
    assert name == dots + ['.'] + ext;
    LastIndexOfSplit(dots, '.', ext);
    assert name[..|dots|] == dots;
  }

  /** Every discovered path has an entry in the name map. */
  predicate AllNamed(todo: seq<string>, names: map<string, Entry>) {
    forall i :: 0 <= i < |todo| ==> ShortName(todo[i]) in names
  }

  function FamilyOf(path: string, names: map<string, Entry>): string
    requires ShortName(path) in names
  {
    FamilyCode(names[ShortName(path)].berry)
  }

  /** The families of the paths in `todo`. */
  function Families(todo: seq<string>, names: map<string, Entry>): set<string>
    requires AllNamed(todo, names)
  {
    if todo == [] then {}
    else Families(todo[..|todo| - 1], names) + {FamilyOf(todo[|todo| - 1], names)}
  }

  /** The paths of `todo` in family `family`, in discovery order. */
  function Members(todo: seq<string>, names: map<string, Entry>, family: string): seq<string>
    requires AllNamed(todo, names)
  {
    if todo == [] then []
    else
      var last := todo[|todo| - 1];
      Members(todo[..|todo| - 1], names, family)
        + if FamilyOf(last, names) == family then [last] else []
  }

  /** The grouping loop over the discovered paths. A path whose base name
      is missing from the name map stops the run with that name (the
      script's unhandled `KeyError`). */
  method GroupFamilies(todo: seq<string>, names: map<string, Entry>)
    returns (r: Result<map<string, seq<string>>, string>)
    ensures r.Failure? <==> !AllNamed(todo, names)
    ensures r.Failure? ==> exists i :: 0 <= i < |todo| && AllNamed(todo[..i], names)
                                       && r.error == ShortName(todo[i]) && r.error !in names
    ensures r.Success? ==> AllNamed(todo, names) && r.value.Keys == Families(todo, names)
    ensures r.Success? ==> forall f :: f in r.value ==> r.value[f] == Members(todo, names, f)
  {
    var groups: map<string, seq<string>> := map[];
    for i := 0 to |todo|
      invariant AllNamed(todo[..i], names)
      invariant groups.Keys == Families(todo[..i], names)
      invariant forall f :: f in groups ==> groups[f] == Members(todo[..i], names, f)
    {
      var t := todo[i];
      var base := ShortName(t);
      if base !in names {
        return Failure(base);
      }
      var family := FamilyCode(names[base].berry);
      GroupStep(todo, i, names, groups);
      if family !in groups {
        groups := groups[family := []];
      }
      groups := groups[family := groups[family] + [t]];
    }
    assert todo[..|todo|] == todo;
    return Success(groups);
  }

  /** One turn of the grouping loop keeps the groups equal to the
      members of each family seen so far. */
  lemma GroupStep(todo: seq<string>, i: nat, names: map<string, Entry>, groups: map<string, seq<string>>)
    requires i < |todo| && AllNamed(todo[..i], names) && ShortName(todo[i]) in names
    requires groups.Keys == Families(todo[..i], names)
    requires forall f :: f in groups ==> groups[f] == Members(todo[..i], names, f)
    ensures AllNamed(todo[..i + 1], names)
    ensures var family := FamilyOf(todo[i], names);
            var g := groups[family := (if family in groups then groups[family] else []) + [todo[i]]];
            g.Keys == Families(todo[..i + 1], names)
            && forall f :: f in g ==> g[f] == Members(todo[..i + 1], names, f)
  {
    var prefix := todo[..i + 1];
    AllNamedExtend(todo, i, names);
    assert prefix[..i] == todo[..i] && prefix[i] == todo[i];
    var family := FamilyOf(todo[i], names);
    assert Families(prefix, names) == Families(todo[..i], names) + {family};
    if family !in groups {
      NotAFamily(todo[..i], names, family);
    }
  }

  lemma AllNamedExtend(todo: seq<string>, i: nat, names: map<string, Entry>)
    requires i < |todo| && AllNamed(todo[..i], names) && ShortName(todo[i]) in names
    ensures AllNamed(todo[..i + 1], names)
  {
    var prefix := todo[..i + 1];
    forall j | 0 <= j < |prefix| ensures ShortName(prefix[j]) in names {
      if j < i {
        assert prefix[j] == todo[..i][j];
      }
    }
  }

  lemma {:induction false} NotAFamily(todo: seq<string>, names: map<string, Entry>, family: string)
    requires AllNamed(todo, names) && family !in Families(todo, names)
    ensures Members(todo, names, family) == []
    decreases |todo|
  {
    if todo != [] {
      NotAFamily(todo[..|todo| - 1], names, family);
    }
  }

  /** A path is in a group exactly when it was discovered and its family
      is the group's key. */
  lemma {:induction false} MembersExact(todo: seq<string>, names: map<string, Entry>, family: string, t: string)
    requires AllNamed(todo, names)
    ensures t in Members(todo, names, family) <==> t in todo && FamilyOf(t, names) == family
    decreases |todo|
  {
    if todo != [] {
      var init := todo[..|todo| - 1];
      MembersExact(init, names, family, t);
      assert todo == init + [todo[|todo| - 1]];
    }
  }

  /** The group keys are exactly the families of the discovered paths. */
  lemma {:induction false} FamiliesExact(todo: seq<string>, names: map<string, Entry>, family: string)
    requires AllNamed(todo, names)
    ensures family in Families(todo, names) <==> exists t :: t in todo && FamilyOf(t, names) == family
    decreases |todo|
  {
    if todo != [] {
      var init := todo[..|todo| - 1];
      FamiliesExact(init, names, family);
      assert todo == init + [todo[|todo| - 1]];
    }
  }

  /** Sum of the group sizes over the keys `fams`. */
  function SumSizes(todo: seq<string>, names: map<string, Entry>, fams: seq<string>): nat
    requires AllNamed(todo, names)
  {
    if fams == [] then 0
    else |Members(todo, names, fams[0])| + SumSizes(todo, names, fams[1..])
  }

  function Occurrences(fams: seq<string>, f: string): nat {
    if fams == [] then 0 else (if fams[0] == f then 1 else 0) + Occurrences(fams[1..], f)
  }

  lemma {:induction false} SumSizesSnoc(todo: seq<string>, names: map<string, Entry>, fams: seq<string>)
    requires todo != [] && AllNamed(todo, names)
    ensures AllNamed(todo[..|todo| - 1], names)
    ensures SumSizes(todo, names, fams)
         == SumSizes(todo[..|todo| - 1], names, fams) + Occurrences(fams, FamilyOf(todo[|todo| - 1], names))
    decreases |fams|
  {
    var init := todo[..|todo| - 1];
    assert AllNamed(init, names) by {
      forall i | 0 <= i < |init| ensures ShortName(init[i]) in names {
        assert init[i] == todo[i];
      }
    }
    if fams != [] {
      SumSizesSnoc(todo, names, fams[1..]);
    }
  }

  lemma {:induction false} OccursOnce(fams: seq<string>, f: string)
    requires f in fams
    requires forall i, j :: 0 <= i < j < |fams| ==> fams[i] != fams[j]
    ensures Occurrences(fams, f) == 1
    decreases |fams|
  {
    if fams[0] == f {
      NotOccurring(fams[1..], f);
    } else {
      OccursOnce(fams[1..], f);
    }
  }

  lemma {:induction false} NotOccurring(fams: seq<string>, f: string)
    requires f !in fams
    ensures Occurrences(fams, f) == 0
    decreases |fams|
  {
    if fams != [] {
      NotOccurring(fams[1..], f);
    }
  }

  /** Every discovered path lands in exactly one group: over any list of
      distinct keys that covers the families, the group sizes add up to
      the number of discovered paths. */
  lemma {:induction false} GroupSizesAddUp(todo: seq<string>, names: map<string, Entry>, fams: seq<string>)
    requires AllNamed(todo, names)
    requires forall f :: f in Families(todo, names) ==> f in fams
    requires forall i, j :: 0 <= i < j < |fams| ==> fams[i] != fams[j]
    ensures SumSizes(todo, names, fams) == |todo|
    decreases |todo|
  {
    if todo == [] {
      ZeroSizes(todo, names, fams);
    } else {
      var init := todo[..|todo| - 1];
      SumSizesSnoc(todo, names, fams);
      GroupSizesAddUp(init, names, fams);
      OccursOnce(fams, FamilyOf(todo[|todo| - 1], names));
    }
  }

  lemma {:induction false} ZeroSizes(todo: seq<string>, names: map<string, Entry>, fams: seq<string>)
    requires todo == [] && AllNamed(todo, names)
    ensures SumSizes(todo, names, fams) == 0
    decreases |fams|
  {
    if fams != [] {
      ZeroSizes(todo, names, fams[1..]);
    }
  }
}
