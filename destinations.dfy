/**
 * Where the files generated for a family go in the texmf tree, and the
 * order in which they are moved there: extension by extension, in the
 * order vf, afm, tfm, fd, pfb.
 */
module Destinations {
  import opened Text

  /** `os.path.join(a, b)` on POSIX (Python 2): an absolute `b` replaces
      `a`; otherwise a `/` is put between them unless `a` is empty or
      already ends with one. */
  function PathJoin(a: string, b: string): string {
    if StartsWith(b, "/") then b
    else if a == [] || EndsWith(a, "/") then a + b
    else a + "/" + b
  }

  /** An absolute second operand is the result; otherwise the result is
      the first operand, a `/` when it is needed, and the second. */
  lemma PathJoinShape(a: string, b: string)
    ensures EndsWith(PathJoin(a, b), b)
    ensures StartsWith(b, "/") ==> PathJoin(a, b) == b
    ensures !StartsWith(b, "/") ==> PathJoin(a, b) == a + b || PathJoin(a, b) == a + "/" + b
    ensures !StartsWith(b, "/") && a != [] ==> EndsWith(PathJoin(a, b)[..|PathJoin(a, b)| - |b|], "/")
    ensures !StartsWith(b, "/") ==> (PathJoin(a, b) == a + b <==> a == [] || EndsWith(a, "/"))
  {
    var r := PathJoin(a, b);
    if !StartsWith(b, "/") {
      if a == [] || EndsWith(a, "/") {
        assert r[..|r| - |b|] == a;
      } else {
        assert r[..|r| - |b|] == a + "/";
      }
    }
  }

  /** The extensions moved out of the working directory, in order. */
  const Extensions: seq<string> := ["vf", "afm", "tfm", "fd", "pfb"]

  /** The directory under `fonts/` an extension's files go to. */
  function Subdir(ext: string): string {
    if ext == "pfb" then "type1" else ext
  }

  function FontDir(texmf: string): string {
    PathJoin(texmf, "fonts")
  }

  function PsnfssDir(texmf: string): string {
    PathJoin(texmf, "tex/latex/psnfss/")
  }

  /** The destination of the files with extension `ext` for a family whose
      PFB files live in `fontNameDir` below the PFB base directory. */
  function Destination(texmf: string, fontNameDir: string, ext: string): string {
    if ext == "fd" then PsnfssDir(texmf)
    else PathJoin(FontDir(texmf), Subdir(ext) + "/" + fontNameDir)
  }

  /** The texmf directory as the prefix of every path joined to it. */
  function Root(texmf: string): string {
    if texmf == [] || EndsWith(texmf, "/") then texmf else texmf + "/"
  }

  lemma JoinRelative(a: string, b: string)
    requires a != [] && !EndsWith(a, "/") && b != [] && b[0] != '/'
    ensures PathJoin(a, b) == a + "/" + b
  {
    assert !StartsWith(b, "/") by {
      assert b[..1][0] == b[0];
    }
  }

  lemma JoinToRoot(texmf: string, rel: string)
    requires rel != [] && rel[0] != '/'
    ensures PathJoin(texmf, rel) == Root(texmf) + rel
  {
    assert !StartsWith(rel, "/") by {
      assert rel[..1][0] == rel[0];
    }
    if !(texmf == [] || EndsWith(texmf, "/")) {
      assert texmf + "/" + rel == (texmf + "/") + rel;
    }
  }

  lemma FontDirShape(texmf: string)
    ensures FontDir(texmf) == Root(texmf) + "fonts"
    ensures FontDir(texmf) != [] && !EndsWith(FontDir(texmf), "/")
  {
    JoinToRoot(texmf, "fonts");
    var fonts := FontDir(texmf);
    assert fonts[|fonts| - 1] == 's';
  }

  /** Each extension's destination: `fd` files go to the psnfss directory
      whatever the family; the others go to `fonts/<subdir>/<fontNameDir>`
      with `pfb` under `type1`. */
  lemma DestinationOf(texmf: string, fontNameDir: string, ext: string)
    requires ext in Extensions
    ensures ext == "fd" ==> Destination(texmf, fontNameDir, ext) == Root(texmf) + "tex/latex/psnfss/"
    ensures ext != "fd" ==>
              Destination(texmf, fontNameDir, ext) == Root(texmf) + "fonts/" + Subdir(ext) + "/" + fontNameDir
    ensures Subdir("pfb") == "type1"
  {
    if ext == "fd" {
      JoinToRoot(texmf, "tex/latex/psnfss/");
    } else {
      var sub := Subdir(ext);
      assert sub != [] && sub[0] != '/';
      var rel := sub + "/" + fontNameDir;
      assert rel[0] == sub[0];
      FontDirShape(texmf);
      JoinRelative(FontDir(texmf), rel);
      assert (Root(texmf) + "fonts") + "/" + rel == Root(texmf) + "fonts/" + sub + "/" + fontNameDir;
    }
  }

  /** No two extensions share a destination directory. */
  lemma DestinationsDistinct(texmf: string, fontNameDir: string, e1: string, e2: string)
    requires e1 in Extensions && e2 in Extensions && e1 != e2
    ensures Destination(texmf, fontNameDir, e1) != Destination(texmf, fontNameDir, e2)
  {
    var root := Root(texmf);
    DestinationOf(texmf, fontNameDir, e1);
    DestinationOf(texmf, fontNameDir, e2);
    var d1 := Destination(texmf, fontNameDir, e1);
    var d2 := Destination(texmf, fontNameDir, e2);
    var n := |root|;
    if e1 == "fd" || e2 == "fd" {
      assert d1[n] != d2[n];
    } else {
      assert d1[n + 6] != d2[n + 6] || d1[n + 7] != d2[n + 7];
    }
  }

  /** `glob('*.' + ext)` selects `name`: it ends with the extension and
      is not a hidden file. */
  predicate Matches(name: string, ext: string) {
    EndsWith(name, "." + ext) && !StartsWith(name, ".")
  }

  /** `*.ext` selects `stem.ext` exactly when the stem is not empty and
      does not start with a dot (`glob` skips hidden files). */
  lemma GlobSelects(stem: string, ext: string)
    ensures Matches(stem + "." + ext, ext) <==> stem != [] && stem[0] != '.'
  {
    var name := stem + "." + ext;
    assert name[|name| - |ext| - 1..] == "." + ext;
    if stem == [] {
      assert name[..1] == ".";
    } else {
      assert name[0] == stem[0];
    }
  }

  /** Every name `*.ext` selects is `stem.ext` for a non-empty stem that
      does not start with a dot. */
  lemma GlobSelectsOnly(name: string, ext: string)
    requires Matches(name, ext)
    ensures var stem := name[..|name| - |ext| - 1];
            name == stem + "." + ext && stem != [] && stem[0] != '.'
  {
    var stem := name[..|name| - |ext| - 1];
    assert name == stem + name[|name| - |ext| - 1..];
    assert name[..1] != ".";
  }

  /** A file matches at most one of the moved extensions. */
  lemma ExtensionsExclusive(name: string, e1: string, e2: string)
    requires e1 in Extensions && e2 in Extensions
    requires Matches(name, e1) && Matches(name, e2)
    ensures e1 == e2
  {
    // The last three characters of the name tell the extensions apart;
    // naming them gives the verifier the terms it needs to see that.
    var n := |name|;
    var last, second, third := name[n - 1], name[n - 2], name[n - 3];
    if e1 != e2 {
      assert false;
    }
  }

  /** The moves for one extension: each matching file of the listing, in
      listing order, to `dest`. */
  function Moves(listing: seq<string>, ext: string, dest: string): seq<(string, string)> {
    if listing == [] then []
    else
      var f := listing[|listing| - 1];
      Moves(listing[..|listing| - 1], ext, dest) + if Matches(f, ext) then [(f, dest)] else []
  }

  /** The moves for the extensions `exts`, one extension after the other. */
  function Plan(listing: seq<string>, texmf: string, fontNameDir: string, exts: seq<string>)
    : seq<(string, string)>
  {
    if exts == [] then []
    else
      var ext := exts[|exts| - 1];
      Plan(listing, texmf, fontNameDir, exts[..|exts| - 1])
        + Moves(listing, ext, Destination(texmf, fontNameDir, ext))
  }

  /** The moves of one extension: the files `glob` selects, each to
      `dest`. */
  method MoveMatching(listing: seq<string>, ext: string, dest: string)
    returns (moves: seq<(string, string)>)
    ensures moves == Moves(listing, ext, dest)
  {
    moves := [];
    for j := 0 to |listing|
      invariant moves == Moves(listing[..j], ext, dest)
    {
      assert listing[..j + 1][..j] == listing[..j];
      if Matches(listing[j], ext) {
        moves := moves + [(listing[j], dest)];
      }
    }
    assert listing[..|listing|] == listing;
  }

  /** The relocation loop of `convert_one_family`: for each extension in
      turn, every file of the working directory that `glob` selects is
      moved to that extension's destination. `listing` is the directory's
      contents in the order the directory lists them. */
  method PlanRelocation(listing: seq<string>, texmf: string, fontNameDir: string)
    returns (moves: seq<(string, string)>)
    ensures moves == Plan(listing, texmf, fontNameDir, Extensions)
  {
    var exts := Extensions;
    moves := [];
    for i := 0 to |exts|
      invariant moves == Plan(listing, texmf, fontNameDir, exts[..i])
    {
      var ext := exts[i];
      var dest := Destination(texmf, fontNameDir, ext);
      assert exts[..i + 1][..i] == exts[..i] && exts[..i + 1][i] == ext;
      var more := MoveMatching(listing, ext, dest);
      moves := moves + more;
    }
    assert exts[..|exts|] == exts;
  }

  lemma {:induction false} MovesExact(listing: seq<string>, ext: string, dest: string, f: string, d: string)
    ensures (f, d) in Moves(listing, ext, dest) <==> f in listing && Matches(f, ext) && d == dest
    decreases |listing|
  {
    if listing != [] {
      var init := listing[..|listing| - 1];
      MovesExact(init, ext, dest, f, d);
      assert listing == init + [listing[|listing| - 1]];
    }
  }

  /** Some extension of `exts` selects `f` and has destination `d`. */
  predicate MovedFor(texmf: string, fontNameDir: string, exts: seq<string>, f: string, d: string) {
    exists e :: e in exts && Matches(f, e) && d == Destination(texmf, fontNameDir, e)
  }

  lemma MovedForSnoc(texmf: string, fontNameDir: string, init: seq<string>, ext: string, f: string, d: string)
    ensures MovedFor(texmf, fontNameDir, init + [ext], f, d)
        <==> MovedFor(texmf, fontNameDir, init, f, d) || (Matches(f, ext) && d == Destination(texmf, fontNameDir, ext))
  {
    var exts := init + [ext];
    if MovedFor(texmf, fontNameDir, exts, f, d) {
      var e :| e in exts && Matches(f, e) && d == Destination(texmf, fontNameDir, e);
      if e != ext {
        assert e in init;
      }
    }
    if MovedFor(texmf, fontNameDir, init, f, d) {
      var e :| e in init && Matches(f, e) && d == Destination(texmf, fontNameDir, e);
      assert e in exts;
    }
    if Matches(f, ext) && d == Destination(texmf, fontNameDir, ext) {
      assert ext in exts;
    }
  }

  /** A file is moved to `d` exactly when it is in the listing, matches one
      of the extensions and `d` is that extension's destination. */
  lemma {:induction false} PlanExact(listing: seq<string>, texmf: string, fontNameDir: string,
                                     exts: seq<string>, f: string, d: string)
    ensures (f, d) in Plan(listing, texmf, fontNameDir, exts)
        <==> f in listing && MovedFor(texmf, fontNameDir, exts, f, d)
    decreases |exts|
  {
    if exts != [] {
      var init := exts[..|exts| - 1];
      var ext := exts[|exts| - 1];
      var dest := Destination(texmf, fontNameDir, ext);
      PlanExact(listing, texmf, fontNameDir, init, f, d);
      MovesExact(listing, ext, dest, f, d);
      assert exts == init + [ext];
      MovedForSnoc(texmf, fontNameDir, init, ext, f, d);
      assert Plan(listing, texmf, fontNameDir, exts)
          == Plan(listing, texmf, fontNameDir, init) + Moves(listing, ext, dest);
    }
  }

  /** Every file is moved to one destination at most, the one its
      extension selects (for the moved extensions or any selection of
      them). */
  lemma PlanSingleDestination(listing: seq<string>, texmf: string, fontNameDir: string,
                              exts: seq<string>, f: string, d1: string, d2: string)
    requires forall e :: e in exts ==> e in Extensions
    requires (f, d1) in Plan(listing, texmf, fontNameDir, exts)
    requires (f, d2) in Plan(listing, texmf, fontNameDir, exts)
    ensures d1 == d2
  {
    PlanExact(listing, texmf, fontNameDir, exts, f, d1);
    PlanExact(listing, texmf, fontNameDir, exts, f, d2);
    var e1 :| e1 in exts && Matches(f, e1) && d1 == Destination(texmf, fontNameDir, e1);
    var e2 :| e2 in exts && Matches(f, e2) && d2 == Destination(texmf, fontNameDir, e2);
    ExtensionsExclusive(f, e1, e2);
  }
}
