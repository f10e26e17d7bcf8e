/**
 * The dvips map fragment written for the installed fonts: one line per
 * name-map entry, naming the 8r-encoded TeX font, the PostScript font it
 * is drawn from, the re-encoding directive and the two files dvips must
 * download.
 */
module DvipsMaps {
  import opened Text
  import opened NameMaps

  /** The re-encoding directive, quotes included. */
  const Recode: string := "\"TeXBase1Encoding ReEncodeFont\""

  predicate Has8a(s: string) {
    exists i :: 0 <= i < |s| - 1 && s[i] == '8' && s[i + 1] == 'a'
  }

  /** `re.sub('8a', '8r', s)`: scanning left to right, every occurrence of
      the literal `8a` that does not overlap an earlier one becomes `8r`. */
  function Recode8a(s: string): (r: string)
    ensures |r| == |s|
    decreases |s|
  {
    if |s| < 2 then s
    else if s[0] == '8' && s[1] == 'a' then "8r" + Recode8a(s[2..])
    else [s[0]] + Recode8a(s[1..])
  }

  /** Reference reading of the substitution: a character changes exactly
      when it is the `a` of an `8a`, and it becomes `r`. */
  lemma {:induction false} Recode8aAt(s: string, i: nat)
    requires i < |s|
    ensures Recode8a(s)[i] == if 0 < i && s[i - 1] == '8' && s[i] == 'a' then 'r' else s[i]
    decreases |s|
  {
    if |s| >= 2 {
      if s[0] == '8' && s[1] == 'a' {
        if i >= 2 {
          Recode8aAt(s[2..], i - 2);
        }
      } else if i >= 1 {
        Recode8aAt(s[1..], i - 1);
      }
    }
  }

  /** No `8a` survives the substitution. */
  lemma {:induction false} Recode8aLeavesNo8a(s: string)
    ensures !Has8a(Recode8a(s))
  {
    var r := Recode8a(s);
    if i :| 0 <= i < |r| - 1 && r[i] == '8' && r[i + 1] == 'a' {
      Recode8aAt(s, i);
      Recode8aAt(s, i + 1);
    }
  }

  /** An identifier is left unchanged exactly when it contains no `8a`. */
  lemma {:induction false} Recode8aUnchanged(s: string)
    ensures Recode8a(s) == s <==> !Has8a(s)
  {
    var r := Recode8a(s);
    if !Has8a(s) {
      forall i | 0 <= i < |s| ensures r[i] == s[i] {
        Recode8aAt(s, i);
      }
    } else {
      var i :| 0 <= i < |s| - 1 && s[i] == '8' && s[i + 1] == 'a';
      Recode8aAt(s, i + 1);
      assert r[i + 1] != s[i + 1];
    }
  }

  /** Substituting twice is substituting once. */
  lemma Recode8aIdempotent(s: string)
    ensures Recode8a(Recode8a(s)) == Recode8a(s)
  {
    Recode8aLeavesNo8a(s);
    Recode8aUnchanged(Recode8a(s));
  }

  /** The substitution keeps a field a field. */
  lemma {:induction false} Recode8aWord(s: string)
    requires IsWord(s)
    ensures IsWord(Recode8a(s))
  {
    forall i | 0 <= i < |s| ensures !IsSpace(Recode8a(s)[i]) {
      Recode8aAt(s, i);
    }
  }

  /** The line `dvips_map_string` emits for one entry. */
  function MapLine(e: Entry): string {
    Recode8a(e.berry) + " \t\t " + e.full + " " + Recode + " <8r.enc <" + e.berry + ".pfb\n"
  }

  /** The fields a dvips map line is read back as. */
  function MapLineFields(e: Entry): seq<string> {
    [Recode8a(e.berry), e.full, "\"TeXBase1Encoding", "ReEncodeFont\"", "<8r.enc", "<" + e.berry + ".pfb"]
  }

  /** The directive reads as two fields. */
  lemma RecodeFields()
    ensures Fields(Recode) == ["\"TeXBase1Encoding", "ReEncodeFont\""]
  {
    var ws := ["\"TeXBase1Encoding", "ReEncodeFont\""];
    assert IsWord(ws[0]) && IsWord(ws[1]);
    assert Unwords(ws) == Recode;
    FieldsOfUnwords(ws);
  }

  lemma EncodingFileFields()
    ensures Fields(" <8r.enc ") == ["<8r.enc"]
  {
    assert " <8r.enc " == " " + ("<8r.enc" + " ");
    FieldsAppend(" ", "<8r.enc" + " ");
    FieldsAppend("<8r.enc", " ");
    FieldsOfSpace(" ");
    FieldsOfWord("<8r.enc");
  }

  lemma PfbFileFields(berry: string)
    requires IsWord(berry)
    ensures Fields("<" + berry + ".pfb\n") == ["<" + berry + ".pfb"]
  {
    var w := "<" + berry + ".pfb";
    assert IsWord(w) by {
      forall i | 0 <= i < |w| ensures !IsSpace(w[i]) {
        if 0 < i < |w| - 4 {
          assert w[i] == berry[i - 1];
        }
      }
    }
    assert "<" + berry + ".pfb\n" == w + "\n";
    FieldsAppend(w, "\n");
    FieldsOfWord(w);
    FieldsOfSpace("\n");
  }

  /** The tail `" <8r.enc <b.pfb\n"` reads as two fields. */
  lemma TailFields(berry: string)
    requires IsWord(berry)
    ensures Fields(" <8r.enc <" + berry + ".pfb\n") == ["<8r.enc", "<" + berry + ".pfb"]
  {
    assert " <8r.enc <" + berry + ".pfb\n" == " <8r.enc " + ("<" + berry + ".pfb\n");
    FieldsAppend(" <8r.enc ", "<" + berry + ".pfb\n");
    EncodingFileFields();
    PfbFileFields(berry);
  }

  /** A field, a run of whitespace, a field and a space read as the two
      fields. */
  lemma TwoFields(b: string, sep: string, full: string)
    requires IsWord(b) && IsWord(full) && sep != [] && AllSpace(sep)
    ensures Fields(b + sep + full + " ") == [b, full]
  {
    var l1 := b + sep;
    var l2 := l1 + full;
    FieldsAppend(l2, " ");
    FieldsOfSpace(" ");
    FieldsAppend(l1, full);
    FieldsOfWord(full);
    FieldsAppend(b, sep);
    FieldsOfSpace(sep);
    FieldsOfWord(b);
  }

  /** The head `"b \t\t f \"TeXBase1Encoding ReEncodeFont\""` reads as
      four fields. */
  lemma HeadFields(b: string, full: string)
    requires IsWord(b) && IsWord(full)
    ensures Fields(b + " \t\t " + full + " " + Recode)
         == [b, full, "\"TeXBase1Encoding", "ReEncodeFont\""]
  {
    var sep := " \t\t ";
    assert AllSpace(sep);
    TwoFields(b, sep, full);
    FieldsAppend(b + sep + full + " ", Recode);
    RecodeFields();
  }

  /** A map line splits into the substituted identifier, the full name,
      the two halves of the directive, the encoding file and the PFB
      file named after the unsubstituted identifier. */
  lemma MapLineSplits(e: Entry)
    requires IsWord(e.berry) && IsWord(e.full)
    ensures Fields(MapLine(e)) == MapLineFields(e)
  {
    var b := Recode8a(e.berry);
    Recode8aWord(e.berry);
    var head := b + " \t\t " + e.full + " " + Recode;
    var tail := " <8r.enc <" + e.berry + ".pfb\n";
    assert MapLine(e) == head + tail;
    FieldsAppend(head, tail);
    HeadFields(b, e.full);
    TailFields(e.berry);
  }

  /** An identifier without `8a` opens its line unchanged. */
  lemma MapLineKeepsPlainIdentifier(e: Entry)
    requires !Has8a(e.berry)
    ensures StartsWith(MapLine(e), e.berry)
  {
    Recode8aUnchanged(e.berry);
    assert MapLine(e)[..|e.berry|] == Recode8a(e.berry);
  }

  /** Each emitted line is one complete line. */
  lemma MapLineTerminated(e: Entry)
    requires NoChar(e.berry, '\n') && NoChar(e.full, '\n')
    ensures Terminated(MapLine(e))
  {
    var l := MapLine(e);
    var b := Recode8a(e.berry);
    forall i | 0 <= i < |l| - 1 ensures l[i] != '\n' {
      if i < |b| {
        Recode8aAt(e.berry, i);
      } else if |b| + 4 <= i < |b| + 4 + |e.full| {
        assert l[i] == e.full[i - |b| - 4];
      } else if |l| - 5 - |e.berry| <= i < |l| - 5 {
        assert l[i] == e.berry[i - (|l| - 5 - |e.berry|)];
      }
    }
  }

  /** The lines for the keys of `names` listed in `order`. */
  function MapLines(order: seq<string>, names: map<string, Entry>): (r: seq<string>)
    requires forall i :: 0 <= i < |order| ==> order[i] in names
    ensures |r| == |order|
    ensures forall i :: 0 <= i < |order| ==> r[i] == MapLine(names[order[i]])
  {
    if order == [] then [] else [MapLine(names[order[0]])] + MapLines(order[1..], names)
  }

  /** `order` lists every key of `keys` exactly once. */
  predicate Enumerates(order: seq<string>, keys: set<string>) {
    && |order| == |keys|
    && (forall i :: 0 <= i < |order| ==> order[i] in keys)
    && (forall k :: k in keys ==> k in order)
    && (forall i, j :: 0 <= i < j < |order| ==> order[i] != order[j])
  }

  /** `dvips_map_string`: one line per entry, appended in the dictionary's
      iteration order, which Python leaves unspecified; `order` records
      the order this run took. */
  method DvipsMapString(names: map<string, Entry>) returns (s: string, ghost order: seq<string>)
    ensures Enumerates(order, names.Keys)
    ensures s == Concat(MapLines(order, names))
    ensures WellFormed(names) ==>
              |Lines(s)| == |names| && forall k :: k in names ==> MapLine(names[k]) in Lines(s)
  {
    s, order := [], [];
    var rest := names.Keys;
    while rest != {}
      invariant rest <= names.Keys
      invariant |order| + |rest| == |names.Keys|
      invariant forall i :: 0 <= i < |order| ==> order[i] in names && order[i] !in rest
      invariant forall k :: k in names && k !in rest ==> k in order
      invariant forall i, j :: 0 <= i < j < |order| ==> order[i] != order[j]
      invariant s == Concat(MapLines(order, names))
      decreases rest
    {
      var k :| k in rest;
      var e := names[k];
      assert MapLines(order + [k], names) == MapLines(order, names) + [MapLine(e)];
      ConcatSnoc(MapLines(order, names), MapLine(e));
      s := s + MapLine(e);
      order := order + [k];
      rest := rest - {k};
    }
    if WellFormed(names) {
      DvipsMapLines(names, order);
    }
  }

  /** Read back as lines, the fragment for a well-formed map has one line
      per entry, each splitting into the fields `MapLineFields` lists. */
  lemma DvipsMapLines(names: map<string, Entry>, order: seq<string>)
    requires WellFormed(names) && Enumerates(order, names.Keys)
    ensures Lines(Concat(MapLines(order, names))) == MapLines(order, names)
    ensures |Lines(Concat(MapLines(order, names)))| == |names|
    ensures forall i :: 0 <= i < |order| ==>
              Fields(Lines(Concat(MapLines(order, names)))[i]) == MapLineFields(names[order[i]])
    ensures forall k :: k in names ==> MapLine(names[k]) in Lines(Concat(MapLines(order, names)))
  {
    var ls := MapLines(order, names);
    forall i | 0 <= i < |ls| ensures Terminated(ls[i]) && Fields(ls[i]) == MapLineFields(names[order[i]]) {
      var e := names[order[i]];
      MapLineTerminated(e);
      MapLineSplits(e);
    }
    LinesOfConcat(ls);
    forall k | k in names ensures MapLine(names[k]) in ls {
      var i :| 0 <= i < |order| && order[i] == k;
      assert ls[i] == MapLine(names[k]);
    }
  }
}
