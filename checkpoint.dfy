/** The checkpoint files: one text file per import stream, holding the
    cursor to resume from (`SetPosition`, `GetPosition`, `NormalizeName`).
    The files are a map from file name to contents; the text encoding of a
    cursor (`DiskBlockPos.ToString` and `Parse`) is a pair of function
    parameters. */
module Checkpoints {

  import opened Wrappers
  import opened BlockStore

  /** The progress file of the default (block) stream unless configured. */
  const DefaultProgressFile := "progress.dat"

  /** The name of the transaction stream. */
  const TxStream := "tx"

  /** The characters `Path.GetFileName` splits at. */
  predicate IsSeparator(c: char) {
    c == '\\' || c == '/' || c == ':'
  }

  predicate NoSeparator(s: string) {
    forall i :: 0 <= i < |s| ==> !IsSeparator(s[i])
  }

  /** `Path.GetFileName(path)`: the longest suffix without a separator,
      that is, everything after the last separator. */
  function FileName(path: string): string
  {
    if path == [] then []
    else if IsSeparator(path[|path| - 1]) then []
    else FileName(path[..|path| - 1]) + [path[|path| - 1]]
  }

  /** The file name is a separator-free suffix of the path, and is all of
      the path or comes right after a separator. */
  lemma {:induction false} FileNameIsLastSegment(path: string)
    ensures var r := FileName(path);
            && |r| <= |path| && r == path[|path| - |r|..]
            && NoSeparator(r)
            && (|r| < |path| ==> IsSeparator(path[|path| - |r| - 1]))
  {
    if path != [] && !IsSeparator(path[|path| - 1]) {
      var p := path[..|path| - 1];
      FileNameIsLastSegment(p);
      var r := FileName(path);
      assert r == FileName(p) + [path[|path| - 1]];
      assert path == p + [path[|path| - 1]];
    }
  }

  /** Appending separator-free text extends the file name by that text. */
  lemma {:induction false} FileNameAppend(s: string, t: string)
    requires NoSeparator(t)
    ensures FileName(s + t) == FileName(s) + t
    decreases |t|
  {
    if t == [] {
      assert s + t == s;
    } else {
      var t', c := t[..|t| - 1], t[|t| - 1];
      assert NoSeparator(t') && !IsSeparator(c);
      FileNameAppend(s, t');
      var u := s + t;
      assert u[|u| - 1] == c;
      assert u[..|u| - 1] == s + t';
      assert FileName(u) == FileName(s + t') + [c];
      assert t == t' + [c];
    }
  }

  /** The file a stream's cursor lives in: the configured progress file
      for the unnamed stream, and `name + "-" + GetFileName(name)` for a
      named one. */
  function NormalizeName(name: Option<string>, progressFile: string): string {
    match name
    case None => progressFile
    case Some(n) => n + "-" + FileName(n)
  }

  lemma DashFileNameHasNoSeparator(n: string)
    ensures NoSeparator("-" + FileName(n))
  {
    var f := FileName(n);
    var t := "-" + f;
    FileNameIsLastSegment(n);
    forall i | 0 <= i < |t| ensures !IsSeparator(t[i]) {
      if i > 0 { assert t[i] == f[i - 1]; }
    }
  }

  /** A named stream's file starts with the name and a dash. */
  lemma NormalizedPrefix(n: string, progressFile: string)
    ensures NormalizeName(Some(n), progressFile)[..|n| + 1] == n + "-"
  {
  }

  /** The file part of a named stream's file is the name's file part twice,
      around a dash. */
  lemma NormalizedFileName(n: string, progressFile: string)
    ensures FileName(NormalizeName(Some(n), progressFile)) == FileName(n) + "-" + FileName(n)
  {
    var t := "-" + FileName(n);
    DashFileNameHasNoSeparator(n);
    FileNameAppend(n, t);
    assert NormalizeName(Some(n), progressFile) == n + t;
  }

  /** Distinct stream names never share a checkpoint file. */
  lemma NormalizeNameInjective(a: string, b: string, progressFile: string)
    ensures NormalizeName(Some(a), progressFile) == NormalizeName(Some(b), progressFile) <==> a == b
  {
    var r := NormalizeName(Some(a), progressFile);
    if r == NormalizeName(Some(b), progressFile) {
      NormalizedFileName(a, progressFile);
      NormalizedFileName(b, progressFile);
      var fa, fb := FileName(a), FileName(b);
      assert |fa| == |fb|;
      assert a == r[..|r| - |fa| - 1];
      assert b == r[..|r| - |fb| - 1];
    }
  }

  /** The transaction stream keeps its cursor in "tx-tx", apart from the
      default stream's "progress.dat". */
  lemma TxStreamFile()
    ensures NormalizeName(Some(TxStream), DefaultProgressFile) == "tx-tx"
    ensures NormalizeName(Some(TxStream), DefaultProgressFile) != NormalizeName(None, DefaultProgressFile)
  {
    assert FileName("") == "";
    assert "t"[..0] == "";
    assert FileName("t") == "t";
    assert "tx"[..1] == "t";
    assert FileName("tx") == "tx";
  }

  /** `GetPosition(name)`: the parsed cursor of the stream's file, or the
      origin when the file is absent or does not parse. */
  function GetPosition(files: map<string, string>, name: Option<string>, progressFile: string,
                       parse: string -> Option<Cursor>): (c: Cursor)
    ensures var file := NormalizeName(name, progressFile);
            if file in files && parse(files[file]).Some? then c == parse(files[file]).value
            else c == Origin
  {
    var file := NormalizeName(name, progressFile);
    if file in files then parse(files[file]).GetOr(Origin) else Origin
  }

  /** `SetPosition(pos, name)`: overwrite the stream's file with the text
      of `pos`. */
  function SetPosition(files: map<string, string>, pos: Cursor, name: Option<string>, progressFile: string,
                       format: Cursor -> string): (r: map<string, string>)
    ensures r.Keys == files.Keys + {NormalizeName(name, progressFile)}
    ensures r[NormalizeName(name, progressFile)] == format(pos)
    ensures forall f :: f in files && f != NormalizeName(name, progressFile) ==> r[f] == files[f]
  {
    files[NormalizeName(name, progressFile) := format(pos)]
  }

  /** A saved cursor is what the next run resumes from, provided the text
      encoding round-trips. */
  lemma SaveThenResume(files: map<string, string>, pos: Cursor, name: Option<string>, progressFile: string,
                       parse: string -> Option<Cursor>, format: Cursor -> string)
    requires parse(format(pos)) == Some(pos)
    ensures GetPosition(SetPosition(files, pos, name, progressFile, format), name, progressFile, parse) == pos
  {
  }

  /** The stream's file after saving each of `positions` in turn. */
  function WriteAll(files: map<string, string>, positions: seq<Cursor>, name: Option<string>,
                    progressFile: string, format: Cursor -> string): map<string, string>
  {
    if positions == [] then files
    else
      SetPosition(WriteAll(files, positions[..|positions| - 1], name, progressFile, format),
                  positions[|positions| - 1], name, progressFile, format)
  }

  /** After a run of saves, the next run resumes from the last one saved:
      each save overwrites the same file. */
  lemma ResumeFromLastSave(files: map<string, string>, positions: seq<Cursor>, name: Option<string>,
                           progressFile: string, parse: string -> Option<Cursor>, format: Cursor -> string)
    requires positions != []
    requires parse(format(positions[|positions| - 1])) == Some(positions[|positions| - 1])
    ensures GetPosition(WriteAll(files, positions, name, progressFile, format), name, progressFile, parse)
            == positions[|positions| - 1]
  {
    SaveThenResume(WriteAll(files, positions[..|positions| - 1], name, progressFile, format),
                   positions[|positions| - 1], name, progressFile, parse, format);
  }

  /** Saving one stream's cursor leaves every other stream's cursor as it
      was. */
  lemma SaveKeepsOtherStreams(files: map<string, string>, pos: Cursor, saved: Option<string>,
                              other: Option<string>, progressFile: string,
                              parse: string -> Option<Cursor>, format: Cursor -> string)
    requires saved != other
    requires saved.None? || other.None? ==> NormalizeName(saved, progressFile) != NormalizeName(other, progressFile)
    ensures GetPosition(SetPosition(files, pos, saved, progressFile, format), other, progressFile, parse)
            == GetPosition(files, other, progressFile, parse)
  {
    if saved.Some? && other.Some? {
      NormalizeNameInjective(saved.value, other.value, progressFile);
    }
  }
}
