/**
 * Name maps: text files whose lines link a font's Berry name and full
 * name to the base name of its PFB file, and the merge of several such
 * files in command-line order.
 */
module NameMaps {
  import opened Wrappers
  import opened Text

  /** The value a name map stores for a PFB base name. */
  datatype Entry = Entry(berry: string, full: string)

  /** A line of a map file starting with this is a comment. */
  const CommentMarker: string := "@c"

  /** The number of fields a line needs to define an entry. */
  const MinFields: nat := 5

  /** What one line of a map file contributes: the key (fifth field) and
      the entry (first and second fields), or nothing. */
  function ParseLine(line: string): (r: Option<(string, Entry)>)
    ensures r.Some? ==> IsWord(r.value.0) && IsWord(r.value.1.berry) && IsWord(r.value.1.full)
  {
    if StartsWith(line, CommentMarker) then None
    else
      var fields := Fields(DropLast(line));
      if |fields| < MinFields then None
      else Some((fields[4], Entry(fields[0], fields[1])))
  }

  predicate Defines(line: string, key: string) {
    ParseLine(line).Some? && ParseLine(line).value.0 == key
  }

  /** The dictionary built from the lines of one map file, later lines
      overwriting earlier ones. */
  function NameMap(lines: seq<string>): map<string, Entry>
  {
    if lines == [] then map[]
    else Step(NameMap(lines[..|lines| - 1]), lines[|lines| - 1])
  }

  /** The effect of one line on the dictionary. */
  function Step(m: map<string, Entry>, line: string): map<string, Entry>
  {
    match ParseLine(line)
    case None => m
    case Some(kv) => m[kv.0 := kv.1]
  }

  /** Every key and every stored name is a whitespace-free field. */
  predicate WellFormed(m: map<string, Entry>) {
    forall k :: k in m ==> IsWord(k) && IsWord(m[k].berry) && IsWord(m[k].full)
  }

  /** `read_name_map`: read the lines of a map file into a dictionary. */
  method ReadNameMap(content: string) returns (m: map<string, Entry>)
    ensures m == NameMap(Lines(content))
  {
    var ls := Lines(content);
    m := map[];
    for i := 0 to |ls|
      invariant m == NameMap(ls[..i])
    {
      assert ls[..i + 1][..i] == ls[..i];
      var l := ls[i];
      if StartsWith(l, CommentMarker) {
        continue;
      }
      l := DropLast(l);
      var fields := Fields(l);
      if |fields| < MinFields {
        continue;
      }
      m := m[fields[4] := Entry(fields[0], fields[1])];
    }
    assert ls[..|ls|] == ls;
  }

  /** A key is in the map exactly when some line defines it. */
  lemma {:induction false} NameMapKeys(lines: seq<string>, key: string)
    ensures key in NameMap(lines) <==> exists i :: 0 <= i < |lines| && Defines(lines[i], key)
    decreases |lines|
  {
    if lines != [] {
      var init := lines[..|lines| - 1];
      var last := lines[|lines| - 1];
      NameMapKeys(init, key);
      assert key in NameMap(lines) <==> key in NameMap(init) || Defines(last, key) by {
        assert lines == init + [last];
        NameMapSnoc(init, last);
      }
      if key in NameMap(lines) && !Defines(last, key) {
        var i :| 0 <= i < |init| && Defines(init[i], key);
        assert lines[i] == init[i];
      }
      if i :| 0 <= i < |lines| && Defines(lines[i], key) {
        if i < |init| {
          assert init[i] == lines[i];
        }
      }
    }
  }

  /** The entry for a key comes from the last line that defines it. */
  lemma {:induction false} NameMapLastWins(lines: seq<string>, i: nat)
    requires i < |lines| && ParseLine(lines[i]).Some?
    requires forall j :: i < j < |lines| ==> !Defines(lines[j], ParseLine(lines[i]).value.0)
    ensures ParseLine(lines[i]).value.0 in NameMap(lines)
    ensures NameMap(lines)[ParseLine(lines[i]).value.0] == ParseLine(lines[i]).value.1
    decreases |lines|
  {
    var init := lines[..|lines| - 1];
    if i < |lines| - 1 {
      assert init[i] == lines[i];
      forall j | i < j < |init| ensures !Defines(init[j], ParseLine(init[i]).value.0) {
        assert init[j] == lines[j];
      }
      NameMapLastWins(init, i);
    }
  }

  /** A line that parses to nothing leaves the map as if it were absent. */
  lemma {:induction false} NameMapIgnores(pre: seq<string>, line: string, post: seq<string>)
    requires ParseLine(line).None?
    ensures NameMap(pre + [line] + post) == NameMap(pre + post)
    decreases |post|
  {
    if post == [] {
      assert pre + [line] + post == pre + [line];
      assert pre + post == pre;
      NameMapSnoc(pre, line);
    } else {
      var init := post[..|post| - 1];
      var last := post[|post| - 1];
      assert pre + [line] + post == (pre + [line] + init) + [last];
      assert pre + post == (pre + init) + [last];
      NameMapIgnores(pre, line, init);
      NameMapSnoc(pre + [line] + init, last);
      NameMapSnoc(pre + init, last);
    }
  }

  /** A comment line contributes no entry. */
  lemma CommentLineIgnored(pre: seq<string>, line: string, post: seq<string>)
    requires StartsWith(line, CommentMarker)
    ensures NameMap(pre + [line] + post) == NameMap(pre + post)
  {
    NameMapIgnores(pre, line, post);
  }

  /** A line with fewer than five fields contributes no entry. */
  lemma ShortLineIgnored(pre: seq<string>, line: string, post: seq<string>)
    requires |Fields(DropLast(line))| < MinFields
    ensures NameMap(pre + [line] + post) == NameMap(pre + post)
  {
    NameMapIgnores(pre, line, post);
  }

  lemma {:induction false} NameMapWellFormed(lines: seq<string>)
    ensures WellFormed(NameMap(lines))
    decreases |lines|
  {
    if lines != [] {
      NameMapWellFormed(lines[..|lines| - 1]);
    }
  }

  /** A line of a map file as written: the Berry name, the full name,
      two fields the installer ignores, the PFB base name and any
      further fields. */
  datatype Record = Record(berry: string, full: string, field2: string, field3: string,
                           psName: string, extra: seq<string>)

  function RecordFields(r: Record): seq<string> {
    [r.berry, r.full, r.field2, r.field3, r.psName] + r.extra
  }

  /** A record that reads back as an entry: every field is whitespace-free
      and the line does not start a comment. */
  predicate IsRecord(r: Record) {
    var fs := RecordFields(r);
    (forall i :: 0 <= i < |fs| ==> IsWord(fs[i])) && !StartsWith(r.berry, CommentMarker)
  }

  function RecordLine(r: Record): string {
    Unwords(RecordFields(r)) + "\n"
  }

  /** Writing a record as a line and parsing it gives its key and entry back. */
  lemma ParseRecordLine(r: Record)
    requires IsRecord(r)
    ensures ParseLine(RecordLine(r)) == Some((r.psName, Entry(r.berry, r.full)))
  {
    var fs := RecordFields(r);
    var u := Unwords(fs);
    var line := u + "\n";
    assert u == fs[0] + " " + Unwords(fs[1..]);
    assert u[..|fs[0]|] == fs[0];
    if |fs[0]| == 1 {
      assert line[1] == ' ';
    } else {
      assert line[..2] == fs[0][..2];
    }
    assert !StartsWith(line, CommentMarker);
    assert DropLast(line) == u;
    FieldsOfUnwords(fs);
  }

  /** `l[:-1]` drops the last character even when it is not a line feed:
      a record on a last line without one is stored under its PFB base
      name minus the final character. */
  lemma UnterminatedRecordLine(r: Record)
    requires IsRecord(r) && r.extra == [] && |r.psName| >= 2
    ensures ParseLine(Unwords(RecordFields(r))) == Some((DropLast(r.psName), Entry(r.berry, r.full)))
  {
    var fs := RecordFields(r);
    var shorter := fs[..4] + [DropLast(r.psName)];
    var u := Unwords(fs);
    DropLastUnwords(fs);
    assert u == fs[0] + " " + Unwords(fs[1..]);
    assert u[..|fs[0]|] == fs[0];
    if |fs[0]| == 1 {
      assert u[1] == ' ';
    } else {
      assert u[..2] == fs[0][..2];
    }
    assert !StartsWith(u, CommentMarker);
    assert IsWord(DropLast(r.psName)) by {
      assert DropLast(r.psName) == r.psName[..|r.psName| - 1];
    }
    FieldsOfUnwords(shorter);
  }

  function RecordLines(records: seq<Record>): (r: seq<string>)
    ensures |r| == |records|
    ensures forall i :: 0 <= i < |records| ==> r[i] == RecordLine(records[i])
  {
    if records == [] then [] else [RecordLine(records[0])] + RecordLines(records[1..])
  }

  lemma RecordLinesTerminated(records: seq<Record>)
    requires forall j :: 0 <= j < |records| ==> IsRecord(records[j])
    ensures forall j :: 0 <= j < |records| ==> Terminated(RecordLines(records)[j])
  {
    var ls := RecordLines(records);
    forall j | 0 <= j < |ls| ensures Terminated(ls[j]) {
      UnwordsNoNewline(RecordFields(records[j]));
      var u := Unwords(RecordFields(records[j]));
      assert ls[j][..|ls[j]| - 1] == u;
    }
  }

  /** Loading a file written from records finds, for each key, the entry
      of the last record that has that key. */
  lemma LoadRecords(records: seq<Record>, i: nat)
    requires forall j :: 0 <= j < |records| ==> IsRecord(records[j])
    requires i < |records|
    requires forall j :: i < j < |records| ==> records[j].psName != records[i].psName
    ensures records[i].psName in NameMap(Lines(Concat(RecordLines(records))))
    ensures NameMap(Lines(Concat(RecordLines(records))))[records[i].psName]
         == Entry(records[i].berry, records[i].full)
  {
    var ls := RecordLines(records);
    RecordLinesTerminated(records);
    LinesOfConcat(ls);
    forall j | 0 <= j < |ls|
      ensures ParseLine(ls[j]) == Some((records[j].psName, Entry(records[j].berry, records[j].full)))
    {
      ParseRecordLine(records[j]);
    }
    NameMapLastWins(ls, i);
  }

  /** With a sixth field, `l[:-1]` on a line without a line feed takes
      the last character of the last field instead, and the key is kept. */
  lemma UnterminatedLongRecordLine(r: Record)
    requires IsRecord(r) && |r.extra| >= 1 && |r.extra[|r.extra| - 1]| >= 2
    ensures ParseLine(Unwords(RecordFields(r))) == Some((r.psName, Entry(r.berry, r.full)))
  {
    var fs := RecordFields(r);
    var last := fs[|fs| - 1];
    var shorter := fs[..|fs| - 1] + [DropLast(last)];
    var u := Unwords(fs);
    RecordNotComment(r);
    DropLastUnwords(fs);
    assert IsWord(DropLast(last)) by {
      assert DropLast(last) == last[..|last| - 1];
    }
    assert shorter[..5] == fs[..5];
    FieldsOfUnwords(shorter);
    assert Fields(DropLast(u)) == shorter;
  }

  /** A record's line never starts a comment. */
  lemma RecordNotComment(r: Record)
    requires IsRecord(r)
    ensures !StartsWith(Unwords(RecordFields(r)), CommentMarker)
  {
    var fs := RecordFields(r);
    var u := Unwords(fs);
    assert u == fs[0] + " " + Unwords(fs[1..]);
    assert u[..|fs[0]|] == fs[0];
    if |fs[0]| == 1 {
      assert u[1] == ' ';
    } else {
      assert u[..2] == fs[0][..2];
    }
  }

  /** The key a record is stored under when it ends the file without a
      line feed: its fifth field loses its last character when it is the
      last field. */
  function UnterminatedKey(r: Record): string {
    if r.extra == [] then DropLast(r.psName) else r.psName
  }

  /** A five-field record whose fifth field is one character long, on a
      line without a line feed, is left with four fields and is skipped. */
  lemma UnterminatedShortKeyLine(r: Record)
    requires IsRecord(r) && r.extra == [] && |r.psName| == 1
    ensures ParseLine(Unwords(RecordFields(r))) == None
  {
    RecordNotComment(r);
    FieldsDropOneCharWord(RecordFields(r));
  }

  /** With a sixth field or more whose last field is one character long,
      that field is lost, and the key and entry are kept. */
  lemma UnterminatedOneCharFieldLine(r: Record)
    requires IsRecord(r) && |r.extra| >= 1 && |r.extra[|r.extra| - 1]| == 1
    ensures ParseLine(Unwords(RecordFields(r))) == Some((r.psName, Entry(r.berry, r.full)))
  {
    var fs := RecordFields(r);
    assert fs[|fs| - 1] == r.extra[|r.extra| - 1];
    RecordNotComment(r);
    FieldsDropOneCharWord(fs);
    assert fs[..|fs| - 1][..5] == fs[..5];
  }

  /** What the line of a record without a line feed parses to, when its
      entry is kept. */
  lemma UnterminatedParse(r: Record)
    requires IsRecord(r)
    requires r.extra == [] ==> |r.psName| >= 2
    ensures ParseLine(Unwords(RecordFields(r))) == Some((UnterminatedKey(r), Entry(r.berry, r.full)))
  {
    if r.extra == [] {
      UnterminatedRecordLine(r);
    } else if |r.extra[|r.extra| - 1]| >= 2 {
      UnterminatedLongRecordLine(r);
    } else {
      var fs := RecordFields(r);
      assert fs[|fs| - 1] == r.extra[|r.extra| - 1];
      UnterminatedOneCharFieldLine(r);
    }
  }

  /** The lines of a file written from records, the last without its
      line feed. */
  lemma UnterminatedRecordText(records: seq<Record>, r: Record)
    requires forall j :: 0 <= j < |records| ==> IsRecord(records[j])
    requires IsRecord(r)
    ensures Lines(Concat(RecordLines(records)) + Unwords(RecordFields(r)))
         == RecordLines(records) + [Unwords(RecordFields(r))]
  {
    RecordLinesTerminated(records);
    RecordTextOneLine(r);
    LinesUnterminated(RecordLines(records), Unwords(RecordFields(r)));
  }

  /** A record's fields joined by spaces make one line without its line
      feed. */
  lemma RecordTextOneLine(r: Record)
    requires IsRecord(r)
    ensures Unwords(RecordFields(r)) != [] && NoChar(Unwords(RecordFields(r)), '\n')
  {
    var fs := RecordFields(r);
    UnwordsNoNewline(fs);
    assert Unwords(fs) == fs[0] + " " + Unwords(fs[1..]);
  }

  lemma NameMapSnoc(ls: seq<string>, line: string)
    ensures NameMap(ls + [line]) == Step(NameMap(ls), line)
  {
    assert (ls + [line])[..|ls|] == ls;
  }

  /** Loading a file written from records whose last record has no line
      feed stores that record's entry under `UnterminatedKey`, unless the
      record has five fields and a one-character fifth field. */
  lemma LoadUnterminatedRecord(records: seq<Record>, r: Record)
    requires forall j :: 0 <= j < |records| ==> IsRecord(records[j])
    requires IsRecord(r)
    requires r.extra == [] ==> |r.psName| >= 2
    ensures UnterminatedKey(r) in NameMap(Lines(Concat(RecordLines(records)) + Unwords(RecordFields(r))))
    ensures NameMap(Lines(Concat(RecordLines(records)) + Unwords(RecordFields(r))))[UnterminatedKey(r)]
         == Entry(r.berry, r.full)
  {
    UnterminatedRecordText(records, r);
    UnterminatedParse(r);
    NameMapSnoc(RecordLines(records), Unwords(RecordFields(r)));
  }

  /** A last record of five fields with a one-character fifth field and
      no line feed adds nothing to the map. */
  lemma LoadUnterminatedShortKey(records: seq<Record>, r: Record)
    requires forall j :: 0 <= j < |records| ==> IsRecord(records[j])
    requires IsRecord(r) && r.extra == [] && |r.psName| == 1
    ensures NameMap(Lines(Concat(RecordLines(records)) + Unwords(RecordFields(r))))
         == NameMap(Lines(Concat(RecordLines(records))))
  {
    UnterminatedRecordText(records, r);
    UnterminatedShortKeyLine(r);
    NameMapSnoc(RecordLines(records), Unwords(RecordFields(r)));
    RecordLinesTerminated(records);
    LinesOfConcat(RecordLines(records));
  }

  /** `key` is defined by the map file with text `file`. */
  predicate InFile(file: string, key: string) {
    key in NameMap(Lines(file))
  }

  /** The merged dictionary after `update` with each map file in turn. */
  function Merged(files: seq<string>): map<string, Entry>
  {
    if files == [] then map[]
    else Merged(files[..|files| - 1]) + NameMap(Lines(files[|files| - 1]))
  }

  /** The merge loop: read every map file in command-line order and
      update one dictionary with each. */
  method MergeNameMaps(files: seq<string>) returns (m: map<string, Entry>)
    ensures m == Merged(files)
  {
    m := map[];
    for i := 0 to |files|
      invariant m == Merged(files[..i])
    {
      assert files[..i + 1][..i] == files[..i];
      var one := ReadNameMap(files[i]);
      m := m + one;
    }
    assert files[..|files|] == files;
  }

  /** The merged key set is the union of the files' key sets. */
  lemma {:induction false} MergedKeys(files: seq<string>, key: string)
    ensures key in Merged(files) <==> exists i :: 0 <= i < |files| && InFile(files[i], key)
    decreases |files|
  {
    if files != [] {
      var init := files[..|files| - 1];
      MergedKeys(init, key);
      assert Merged(files) == Merged(init) + NameMap(Lines(files[|files| - 1]));
      if key in Merged(files) && !InFile(files[|files| - 1], key) {
        var i :| 0 <= i < |init| && InFile(init[i], key);
        assert files[i] == init[i];
      }
      if i :| 0 <= i < |files| && InFile(files[i], key) {
        if i < |init| {
          assert init[i] == files[i];
        }
      }
    }
  }

  /** A key takes its value from the last file that defines it; keys no
      later file mentions keep their earlier value. */
  lemma {:induction false} MergedLastWins(files: seq<string>, i: nat, key: string)
    requires i < |files| && key in NameMap(Lines(files[i]))
    requires forall j :: i < j < |files| ==> key !in NameMap(Lines(files[j]))
    ensures key in Merged(files) && Merged(files)[key] == NameMap(Lines(files[i]))[key]
    decreases |files|
  {
    var init := files[..|files| - 1];
    if i < |files| - 1 {
      assert init[i] == files[i];
      forall j | i < j < |init| ensures key !in NameMap(Lines(init[j])) {
        assert init[j] == files[j];
      }
      MergedLastWins(init, i, key);
    }
  }

  lemma {:induction false} MergedWellFormed(files: seq<string>)
    ensures WellFormed(Merged(files))
    decreases |files|
  {
    if files != [] {
      MergedWellFormed(files[..|files| - 1]);
      NameMapWellFormed(Lines(files[|files| - 1]));
    }
  }
}
