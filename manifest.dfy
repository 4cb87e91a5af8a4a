/** The `_manifest.tsv` file of a decision folder: one line per staged file,
    `moved<TAB>original`, read back into an insertion-ordered dictionary. */
module Manifest {
  import opened Wrappers
  import opened Text
  import opened Paths

  /** The bookkeeping files a decision folder holds besides the staged images. */
  const ManifestName: string := "_manifest.tsv"
  const PreviewName: string := "_preview.html"

  /** A Python `dict[Path, Path]`: pairs in insertion order. */
  type Mapping = seq<(Path, Path)>

  function Keys(m: Mapping): (r: seq<Path>)
    ensures |r| == |m| && forall i :: 0 <= i < |m| ==> r[i] == m[i].0
  {
    if m == [] then [] else [m[0].0] + Keys(m[1..])
  }

  /** A dictionary holds each key once. */
  predicate Keyed(m: Mapping)
  {
    forall i, j :: 0 <= i < j < |m| ==> m[i].0 != m[j].0
  }

  /** `mapping.get(k)`. */
  function Get(m: Mapping, k: Path): (r: Option<Path>)
    ensures r.None? <==> forall i :: 0 <= i < |m| ==> m[i].0 != k
  {
    if m == [] then None
    else if m[0].0 == k then Some(m[0].1)
    else Get(m[1..], k)
  }

  /** A key found by `get` sits in the mapping with that value. */
  lemma {:induction false} GetFound(m: Mapping, k: Path)
    requires Get(m, k).Some?
    ensures exists i :: 0 <= i < |m| && m[i] == (k, Get(m, k).value)
  {
    if m[0].0 != k {
      GetFound(m[1..], k);
      var i :| 0 <= i < |m[1..]| && m[1..][i] == (k, Get(m, k).value);
      assert m[i + 1] == m[1..][i];
    }
  }

  /** `mapping[k] = v`. */
  function Put(m: Mapping, k: Path, v: Path): (r: Mapping)
    ensures Get(r, k) == Some(v)
    ensures forall j :: j != k ==> Get(r, j) == Get(m, j)
  {
    if m == [] then [(k, v)]
    else if m[0].0 == k then [(k, v)] + m[1..]
    else [m[0]] + Put(m[1..], k, v)
  }

  /** An existing key keeps its place, a new key goes last. */
  lemma {:induction false} PutKeys(m: Mapping, k: Path, v: Path)
    ensures Get(m, k).Some? ==> Keys(Put(m, k, v)) == Keys(m)
    ensures Get(m, k).None? ==> Keys(Put(m, k, v)) == Keys(m) + [k]
  {
    if m != [] {
      var r := Put(m, k, v);
      assert r[1..] == if m[0].0 == k then m[1..] else Put(m[1..], k, v);
      if m[0].0 != k {
        PutKeys(m[1..], k, v);
      }
    }
  }

  /** Assignment keeps every key once. */
  lemma PutKeyed(m: Mapping, k: Path, v: Path)
    requires Keyed(m)
    ensures Keyed(Put(m, k, v))
  {
    var r := Put(m, k, v);
    PutKeys(m, k, v);
    forall i, j | 0 <= i < j < |r| ensures r[i].0 != r[j].0 {
      assert Keys(r)[i] == r[i].0 && Keys(r)[j] == r[j].0;
      if Get(m, k).None? {
        assert Keys(r) == Keys(m) + [k];
        if j < |m| {
          assert Keys(m)[i] == m[i].0 && Keys(m)[j] == m[j].0;
        } else {
          assert Keys(m)[i] == m[i].0;
        }
      } else {
        assert Keys(m)[i] == m[i].0 && Keys(m)[j] == m[j].0;
      }
    }
  }

  /** The dictionary built by assigning the pairs one after another. */
  function FromPairs(pairs: seq<(Path, Path)>): Mapping
  {
    if pairs == [] then []
    else
      var last := pairs[|pairs| - 1];
      Put(FromPairs(pairs[..|pairs| - 1]), last.0, last.1)
  }

  /** The value the last pair with key k gives, if any. */
  function LastFor(pairs: seq<(Path, Path)>, k: Path): Option<Path>
  {
    if pairs == [] then None
    else if pairs[|pairs| - 1].0 == k then Some(pairs[|pairs| - 1].1)
    else LastFor(pairs[..|pairs| - 1], k)
  }

  lemma {:induction false} FromPairsKeyed(pairs: seq<(Path, Path)>)
    ensures Keyed(FromPairs(pairs))
  {
    if pairs != [] {
      var last := pairs[|pairs| - 1];
      FromPairsKeyed(pairs[..|pairs| - 1]);
      PutKeyed(FromPairs(pairs[..|pairs| - 1]), last.0, last.1);
    }
  }

  /** Later pairs win: the dictionary maps each key to its last value. */
  lemma {:induction false} FromPairsLastWins(pairs: seq<(Path, Path)>, k: Path)
    ensures Get(FromPairs(pairs), k) == LastFor(pairs, k)
  {
    if pairs != [] {
      FromPairsLastWins(pairs[..|pairs| - 1], k);
    }
  }

  /** With distinct keys, nothing is overwritten and the order is kept. */
  lemma {:induction false} FromPairsDistinct(pairs: seq<(Path, Path)>)
    requires Keyed(pairs)
    ensures FromPairs(pairs) == pairs
  {
    if pairs != [] {
      var init := pairs[..|pairs| - 1];
      var last := pairs[|pairs| - 1];
      assert Keyed(init);
      FromPairsDistinct(init);
      PutFresh(init, last.0, last.1);
    }
  }

  lemma {:induction false} PutFresh(m: Mapping, k: Path, v: Path)
    requires forall i :: 0 <= i < |m| ==> m[i].0 != k
    ensures Put(m, k, v) == m + [(k, v)]
  {
    if m != [] {
      PutFresh(m[1..], k, v);
    }
  }

  // ---------------------------------------------------------------
  // The file format
  // ---------------------------------------------------------------

  /** One manifest line: the two posix paths joined by a tab. */
  function Line(moved: Path, original: Path): string
  {
    moved + "\t" + original
  }

  function Lines(pairs: seq<(Path, Path)>): (r: seq<string>)
    ensures |r| == |pairs| && forall i :: 0 <= i < |pairs| ==> r[i] == Line(pairs[i].0, pairs[i].1)
  {
    seq(|pairs|, i requires 0 <= i < |pairs| => Line(pairs[i].0, pairs[i].1))
  }

  /** `find_dupe_images.write_manifest`: the lines joined by newlines, always
      followed by one more newline. */
  function EncodeAlwaysTerminated(pairs: seq<(Path, Path)>): (r: string)
    ensures |r| >= 1 && r[|r| - 1] == '\n'
    ensures pairs == [] ==> r == "\n"
  {
    Join(Lines(pairs), '\n') + "\n"
  }

  /** `dupes.write_manifest`: the same, but an empty list writes an empty file. */
  function EncodeTerminatedIfAny(pairs: seq<(Path, Path)>): (r: string)
    ensures r == "" <==> pairs == []
    ensures pairs != [] ==> r == EncodeAlwaysTerminated(pairs)
  {
    Join(Lines(pairs), '\n') + (if pairs == [] then "" else "\n")
  }

  /** `line.split("\t", 1)` unpacked into two names; `None` is the
      `ValueError` a line without a tab raises. */
  function ParseLine(line: string): (r: Option<(Path, Path)>)
    ensures r.None? <==> '\t' !in line
    ensures r.Some? ==> '\t' !in r.value.0 && line == Line(r.value.0, r.value.1)
  {
    var i := IndexOf(line, '\t');
    if i == |line| then (assert line[..i] == line; None)
    else
      assert line == line[..i] + "\t" + line[i + 1..];
      Some((line[..i], line[i + 1..]))
  }

  /** The loop of `read_manifest` over the lines: blank lines are skipped,
      every other line is split and assigned. */
  function ParseLines(lines: seq<string>): Option<Mapping>
  {
    if lines == [] then Some([])
    else
      var line := lines[|lines| - 1];
      match ParseLines(lines[..|lines| - 1])
      case None => None
      case Some(m) =>
        if IsBlank(line) then Some(m)
        else match ParseLine(line)
          case None => None
          case Some(p) => Some(Put(m, p.0, p.1))
  }

  /** `read_manifest`: a missing file is an empty mapping. */
  function ParseManifest(content: Option<string>): Option<Mapping>
  {
    match content
    case None => Some([])
    case Some(text) => ParseLines(SplitLines(text))
  }

  /** `read_manifest` as the loop it is. */
  method ReadManifest(content: Option<string>) returns (r: Option<Mapping>)
    ensures r == ParseManifest(content)
  {
    if content.None? {
      return Some([]);
    }
    var lines := SplitLines(content.value);
    var mapping: Mapping := [];
    var i := 0;
    while i < |lines|
      invariant i <= |lines|
      invariant ParseLines(lines[..i]) == Some(mapping)
    {
      var line := lines[i];
      assert lines[..i + 1][..i] == lines[..i];
      if !IsBlank(line) {
        var p := ParseLine(line);
        if p.None? {
          ParseLinesFails(lines);
          return None;
        }
        mapping := Put(mapping, p.value.0, p.value.1);
      }
      i := i + 1;
    }
    assert lines[..i] == lines;
    r := Some(mapping);
  }

  /** Reading fails exactly when some non-blank line has no tab. */
  lemma {:induction false} ParseLinesFails(lines: seq<string>)
    ensures ParseLines(lines).None? <==> exists i :: 0 <= i < |lines| && !IsBlank(lines[i]) && '\t' !in lines[i]
  {
    if lines != [] {
      var init := lines[..|lines| - 1];
      ParseLinesFails(init);
      if exists i :: 0 <= i < |init| && !IsBlank(init[i]) && '\t' !in init[i] {
        var i :| 0 <= i < |init| && !IsBlank(init[i]) && '\t' !in init[i];
        assert lines[i] == init[i];
      }
      if exists i :: 0 <= i < |lines| && !IsBlank(lines[i]) && '\t' !in lines[i] {
        var i :| 0 <= i < |lines| && !IsBlank(lines[i]) && '\t' !in lines[i];
        if i < |init| {
          assert init[i] == lines[i];
        }
      }
    }
  }

  /** A pair the written format can carry: the moved path has no tab and is
      not blank, and neither path holds a line boundary. */
  predicate Writable(p: (Path, Path))
  {
    '\t' !in p.0 && !IsBlank(p.0) && NoLineBreak(p.0) && NoLineBreak(p.1)
  }

  lemma LineOf(p: (Path, Path))
    requires Writable(p)
    ensures NoLineBreak(Line(p.0, p.1)) && !IsBlank(Line(p.0, p.1))
    ensures ParseLine(Line(p.0, p.1)) == Some(p)
  {
    var l := Line(p.0, p.1);
    assert l[..|p.0|] == p.0;
    var k :| 0 <= k < |p.0| && !IsSpace(p.0[k]);
    assert l[k] == p.0[k];
    assert IndexOf(l, '\t') == |p.0| by {
      assert l[|p.0|] == '\t';
      assert '\t' !in l[..|p.0|];
    }
    assert l[|p.0| + 1..] == p.1;
    forall i | 0 <= i < |l| ensures !IsLineBreak(l[i]) {
      if i > |p.0| {
        assert l[i] == p.1[i - |p.0| - 1];
      }
    }
  }

  /** Splitting newline-joined, newline-terminated lines gives the lines back. */
  lemma {:induction false} SplitJoined(lines: seq<string>)
    requires |lines| >= 1
    requires forall i :: 0 <= i < |lines| ==> NoLineBreak(lines[i])
    ensures SplitLines(Join(lines, '\n') + "\n") == lines
  {
    if |lines| == 1 {
      assert Join(lines, '\n') + "\n" == lines[0] + "\n" + "";
      SplitLinesCons(lines[0], "");
    } else {
      var tail := lines[1..];
      SplitJoined(tail);
      assert Join(lines, '\n') + "\n" == lines[0] + "\n" + (Join(tail, '\n') + "\n");
      SplitLinesCons(lines[0], Join(tail, '\n') + "\n");
    }
  }

  lemma {:induction false} ParseWrittenLines(pairs: seq<(Path, Path)>)
    requires forall i :: 0 <= i < |pairs| ==> Writable(pairs[i])
    ensures ParseLines(Lines(pairs)) == Some(FromPairs(pairs))
  {
    if pairs != [] {
      var init := pairs[..|pairs| - 1];
      var last := pairs[|pairs| - 1];
      ParseWrittenLines(init);
      assert Lines(pairs)[..|pairs| - 1] == Lines(init);
      LineOf(last);
    }
  }

  /** Writing with `find_dupe_images.write_manifest` and reading back gives
      the dictionary of the pairs (the last pair for a repeated key wins). */
  lemma AlwaysTerminatedRoundTrip(pairs: seq<(Path, Path)>)
    requires forall i :: 0 <= i < |pairs| ==> Writable(pairs[i])
    ensures ParseManifest(Some(EncodeAlwaysTerminated(pairs))) == Some(FromPairs(pairs))
  {
    if pairs == [] {
      assert EncodeAlwaysTerminated(pairs) == "" + "\n" + "";
      SplitLinesCons("", "");
      assert ParseLines([""]) == Some([]) by {
        assert [""][..0] == [];
      }
    } else {
      LinesWritable(pairs);
      SplitJoined(Lines(pairs));
      ParseWrittenLines(pairs);
    }
  }

  /** The same for `dupes.write_manifest`. */
  lemma TerminatedIfAnyRoundTrip(pairs: seq<(Path, Path)>)
    requires forall i :: 0 <= i < |pairs| ==> Writable(pairs[i])
    ensures ParseManifest(Some(EncodeTerminatedIfAny(pairs))) == Some(FromPairs(pairs))
  {
    if pairs != [] {
      LinesWritable(pairs);
      SplitJoined(Lines(pairs));
      ParseWrittenLines(pairs);
    }
  }

  lemma LinesWritable(pairs: seq<(Path, Path)>)
    requires forall i :: 0 <= i < |pairs| ==> Writable(pairs[i])
    ensures forall i :: 0 <= i < |pairs| ==> NoLineBreak(Lines(pairs)[i])
  {
    forall i | 0 <= i < |pairs| ensures NoLineBreak(Lines(pairs)[i]) {
      LineOf(pairs[i]);
    }
  }

  /** With distinct moved paths, the manifest reads back as written, in order. */
  lemma DistinctRoundTrip(pairs: seq<(Path, Path)>)
    requires forall i :: 0 <= i < |pairs| ==> Writable(pairs[i])
    requires Keyed(pairs)
    ensures ParseManifest(Some(EncodeAlwaysTerminated(pairs))) == Some(pairs)
    ensures ParseManifest(Some(EncodeTerminatedIfAny(pairs))) == Some(pairs)
  {
    AlwaysTerminatedRoundTrip(pairs);
    TerminatedIfAnyRoundTrip(pairs);
    FromPairsDistinct(pairs);
  }

  // ---------------------------------------------------------------
  // Reading by moved file name (the review server)
  // ---------------------------------------------------------------

  /** The pairs of the non-blank lines, in file order; `None` when a
      non-blank line has no tab. */
  function Entries(lines: seq<string>): Option<seq<(Path, Path)>>
  {
    if lines == [] then Some([])
    else
      var line := lines[|lines| - 1];
      match Entries(lines[..|lines| - 1])
      case None => None
      case Some(ps) =>
        if IsBlank(line) then Some(ps)
        else match ParseLine(line)
          case None => None
          case Some(p) => Some(ps + [p])
  }

  /** Each pair with its moved path cut down to the file name. */
  function MovedNames(ps: seq<(Path, Path)>): (r: seq<(string, Path)>)
    ensures |r| == |ps| && forall i :: 0 <= i < |ps| ==> r[i] == (Name(ps[i].0), ps[i].1)
  {
    seq(|ps|, i requires 0 <= i < |ps| => (Name(ps[i].0), ps[i].1))
  }

  /** The loop of the review server's manifest reader: blank lines are
      skipped, every other line is split and assigned under the file name
      of its moved path. */
  function ParseLinesByName(lines: seq<string>): Option<Mapping>
  {
    if lines == [] then Some([])
    else
      var line := lines[|lines| - 1];
      match ParseLinesByName(lines[..|lines| - 1])
      case None => None
      case Some(m) =>
        if IsBlank(line) then Some(m)
        else match ParseLine(line)
          case None => None
          case Some(p) => Some(Put(m, Name(p.0), p.1))
  }

  /** The review server's reader: a missing file is an empty mapping. */
  function ParseManifestByName(content: Option<string>): Option<Mapping>
  {
    match content
    case None => Some([])
    case Some(text) => ParseLinesByName(SplitLines(text))
  }

  /** Reading by path is assigning the line pairs one after another. */
  lemma {:induction false} ParseLinesEntries(lines: seq<string>)
    ensures ParseLines(lines) == if Entries(lines).None? then None else Some(FromPairs(Entries(lines).value))
  {
    if lines != [] {
      var init := lines[..|lines| - 1];
      ParseLinesEntries(init);
      var line := lines[|lines| - 1];
      if Entries(init).Some? && !IsBlank(line) && ParseLine(line).Some? {
        var ps := Entries(init).value;
        var p := ParseLine(line).value;
        assert (ps + [p])[..|ps|] == ps;
      }
    }
  }

  /** Reading by name is assigning the renamed line pairs one after another. */
  lemma {:induction false} ParseLinesByNameEntries(lines: seq<string>)
    ensures ParseLinesByName(lines) == if Entries(lines).None? then None else Some(FromPairs(MovedNames(Entries(lines).value)))
  {
    if lines != [] {
      var init := lines[..|lines| - 1];
      ParseLinesByNameEntries(init);
      var line := lines[|lines| - 1];
      if Entries(init).Some? && !IsBlank(line) && ParseLine(line).Some? {
        var ps := Entries(init).value;
        var p := ParseLine(line).value;
        var q := ps + [p];
        assert MovedNames(q)[..|ps|] == MovedNames(ps);
        assert MovedNames(q)[|ps|] == (Name(p.0), p.1);
      }
    }
  }

  /** Both readers reject exactly the same files. */
  lemma ByNameFailsLikeByPath(content: Option<string>)
    ensures ParseManifestByName(content).None? <==> ParseManifest(content).None?
  {
    if content.Some? {
      ParseLinesEntries(SplitLines(content.value));
      ParseLinesByNameEntries(SplitLines(content.value));
    }
  }

  /** Reading by name fails exactly when some non-blank line has no tab. */
  lemma ParseLinesByNameFails(lines: seq<string>)
    ensures ParseLinesByName(lines).None? <==> exists i :: 0 <= i < |lines| && !IsBlank(lines[i]) && '\t' !in lines[i]
  {
    ParseLinesFails(lines);
    ParseLinesEntries(lines);
    ParseLinesByNameEntries(lines);
  }

  /** Reading by name maps a file name to the original of the last line
      whose moved path has that name. */
  lemma ByNameLastWins(lines: seq<string>, n: string)
    requires ParseLinesByName(lines).Some?
    ensures Entries(lines).Some?
    ensures Get(ParseLinesByName(lines).value, n) == LastFor(MovedNames(Entries(lines).value), n)
  {
    ParseLinesByNameEntries(lines);
    FromPairsLastWins(MovedNames(Entries(lines).value), n);
  }

  lemma {:induction false} EntriesWritten(pairs: seq<(Path, Path)>)
    requires forall i :: 0 <= i < |pairs| ==> Writable(pairs[i])
    ensures Entries(Lines(pairs)) == Some(pairs)
  {
    if pairs != [] {
      var init := pairs[..|pairs| - 1];
      var last := pairs[|pairs| - 1];
      EntriesWritten(init);
      assert Lines(pairs)[..|pairs| - 1] == Lines(init);
      LineOf(last);
      assert init + [last] == pairs;
    }
  }

  /** A manifest written by the staging script reads back, by name, as the
      dictionary of the renamed pairs. */
  lemma ByNameRoundTrip(pairs: seq<(Path, Path)>)
    requires forall i :: 0 <= i < |pairs| ==> Writable(pairs[i])
    ensures ParseManifestByName(Some(EncodeAlwaysTerminated(pairs))) == Some(FromPairs(MovedNames(pairs)))
    ensures ParseManifestByName(Some(EncodeTerminatedIfAny(pairs))) == Some(FromPairs(MovedNames(pairs)))
  {
    if pairs == [] {
      assert EncodeAlwaysTerminated(pairs) == "" + "\n" + "";
      SplitLinesCons("", "");
      assert ParseLinesByName([""]) == Some([]) by {
        assert [""][..0] == [];
      }
    } else {
      LinesWritable(pairs);
      SplitJoined(Lines(pairs));
      EntriesWritten(pairs);
      ParseLinesByNameEntries(Lines(pairs));
    }
  }
}
