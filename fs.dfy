/**
 * `LocalFSUtil` in `src/util/fs.py`: shell escaping of paths, the filter of
 * `list_files`, the size helpers, `source_to_target`, and the two operations
 * that change the file system, `save_text` and `delete_file_if_empty`.
 *
 * The file system is the field `files` of `LocalFsUtil`, a map from the path
 * of each regular file to its text; a directory listing (`os.listdir`) is a
 * parameter.
 */
module FsUtil {
  import opened Wrappers
  import opened PyStrings
  import opened PyPaths

  /** The exception `os.path.getsize` raises for a path that does not exist. */
  datatype FsError = FileNotFound(path: string)

  // ---------------------------------------------------------------------
  // escape_path

  /** The characters `escape_path` puts a backslash in front of. */
  predicate IsSpecial(c: char) {
    c == '(' || c == ')' || c == ' ' || c == '\''
  }

  /** `escape_path`: the four `replace` calls, in their order. */
  function EscapePath(path: string): string {
    Replace(Replace(Replace(Replace(path, '(', "\\("), ')', "\\)"), ' ', "\\ "), '\'', "\\'")
  }

  /** What one character becomes under escaping. */
  function EscapeChar(c: char): (r: string)
    ensures |r| == (if IsSpecial(c) then 2 else 1) && r[|r| - 1] == c
    ensures IsSpecial(c) ==> r[0] == '\\'
  {
    if IsSpecial(c) then ['\\', c] else [c]
  }

  /** Escaping one character at a time, left to right. */
  function EscapeEach(s: string): (r: string)
    ensures |r| == |s| + CountSpecial(s)
    decreases |s|
  {
    if s == [] then [] else EscapeChar(s[0]) + EscapeEach(s[1..])
  }

  /** The number of characters of `s` that escaping doubles. */
  function CountSpecial(s: string): (n: nat)
    ensures n <= |s|
    ensures n == 0 <==> forall i :: 0 <= i < |s| ==> !IsSpecial(s[i])
    decreases |s|
  {
    if s == [] then 0 else (if IsSpecial(s[0]) then 1 else 0) + CountSpecial(s[1..])
  }

  /** `escape_path` distributes over concatenation. */
  lemma {:induction false} EscapeConcat(a: string, b: string)
    ensures EscapePath(a + b) == EscapePath(a) + EscapePath(b)
  {
    var a1, b1 := Replace(a, '(', "\\("), Replace(b, '(', "\\(");
    ReplaceConcat(a, b, '(', "\\(");
    var a2, b2 := Replace(a1, ')', "\\)"), Replace(b1, ')', "\\)");
    ReplaceConcat(a1, b1, ')', "\\)");
    var a3, b3 := Replace(a2, ' ', "\\ "), Replace(b2, ' ', "\\ ");
    ReplaceConcat(a2, b2, ' ', "\\ ");
    ReplaceConcat(a3, b3, '\'', "\\'");
  }

  /** On one character, the four replacements do what `EscapeChar` says. */
  lemma {:induction false} EscapeSingle(c: char)
    ensures EscapePath([c]) == EscapeChar(c)
  {
    var s := [c];
    assert s[1..] == [];
    var r1 := Replace(s, '(', "\\(");
    assert r1 == if c == '(' then "\\(" else [c];
    var r2 := Replace(r1, ')', "\\)");
    assert r2 == if c == '(' || c == ')' then ['\\', c] else [c];
    var r3 := Replace(r2, ' ', "\\ ");
    assert r3 == if c == '(' || c == ')' || c == ' ' then ['\\', c] else [c];
  }

  /**
   * The chained `replace` calls act character by character: no backslash one
   * of them inserts is a target of a later one.
   */
  lemma {:induction false} EscapePathPerCharacter(s: string)
    ensures EscapePath(s) == EscapeEach(s)
    decreases |s|
  {
    if s == [] {
    } else {
      assert s == [s[0]] + s[1..];
      EscapeConcat([s[0]], s[1..]);
      EscapeSingle(s[0]);
      EscapePathPerCharacter(s[1..]);
    }
  }

  /** The length of `escape_path(s)` is that of `s` plus the number of `(`, `)`, spaces and quotes in it. */
  lemma {:induction false} EscapePathLength(s: string)
    ensures |EscapePath(s)| == |s| + CountSpecial(s)
  {
    EscapePathPerCharacter(s);
  }

  /** A path holding none of the four characters is left as it is. */
  lemma {:induction false} EscapePathPlain(s: string)
    requires forall i :: 0 <= i < |s| ==> !IsSpecial(s[i])
    ensures EscapePath(s) == s
    decreases |s|
  {
    EscapePathPerCharacter(s);
    EachPlain(s);
  }

  lemma {:induction false} EachPlain(s: string)
    requires forall i :: 0 <= i < |s| ==> !IsSpecial(s[i])
    ensures EscapeEach(s) == s
    decreases |s|
  {
    if s != [] {
      EachPlain(s[1..]);
      assert [s[0]] + s[1..] == s;
    }
  }

  /** Drops the backslash in front of each special character. */
  function Unescape(s: string): string
    decreases |s|
  {
    if s == [] then []
    else if |s| >= 2 && s[0] == '\\' && IsSpecial(s[1]) then [s[1]] + Unescape(s[2..])
    else [s[0]] + Unescape(s[1..])
  }

  /** An escaped text never starts with a special character: each one carries its backslash. */
  lemma {:induction false} EscapeEachStart(s: string)
    ensures EscapeEach(s) == [] || !IsSpecial(EscapeEach(s)[0])
  {
    if s != [] {
      assert EscapeEach(s)[0] == EscapeChar(s[0])[0];
    }
  }

  /** Escaping loses nothing: `Unescape` recovers the path, so distinct paths stay distinct. */
  lemma {:induction false} UnescapeEscape(s: string)
    ensures Unescape(EscapePath(s)) == s
  {
    EscapePathPerCharacter(s);
    UnescapeEach(s);
  }

  lemma {:induction false} UnescapeEach(s: string)
    ensures Unescape(EscapeEach(s)) == s
    decreases |s|
  {
    if s != [] {
      var c, rest := s[0], EscapeEach(s[1..]);
      EscapeEachStart(s[1..]);
      var e := EscapeChar(c) + rest;
      assert EscapeEach(s) == e;
      if IsSpecial(c) {
        assert e[2..] == rest;
      } else {
        assert e[1..] == rest;
      }
      UnescapeEach(s[1..]);
      assert [c] + s[1..] == s;
    }
  }

  /** `escape_path` is one-to-one. */
  lemma {:induction false} EscapePathInjective(a: string, b: string)
    requires EscapePath(a) == EscapePath(b)
    ensures a == b
  {
    UnescapeEscape(a);
    UnescapeEscape(b);
  }

  // ---------------------------------------------------------------------
  // list_files

  /** The extension `list_files` filters on, once a missing leading `.` is added. */
  function NormaliseExtension(extension: string): (e: string)
    ensures e == [] <==> extension == []
    ensures e != [] ==> e[0] == '.'
  {
    if extension != [] && !StartsWith(extension, ".") then "." + extension else extension
  }

  /** Asking for `"txt"` and for `".txt"` selects the same files. */
  lemma {:induction false} NormaliseWithoutDot(extension: string)
    requires extension != [] && extension[0] != '.'
    ensures NormaliseExtension(extension) == NormaliseExtension("." + extension) == "." + extension
  {
    assert StartsWith("." + extension, ".");
    assert !StartsWith(extension, ".") by {
      assert extension[..1] != ".";
    }
  }

  /** The test one directory entry must pass, with `extension` already normalised. */
  predicate Keeps(directory: string, extension: string, name: string, regular: set<string>) {
    (extension == [] || EndsWith(name, extension)) && PathJoin(directory, name) in regular
  }

  /** The list `list_files` builds: the joined path of every entry, in listing order, that passes `Keeps`. */
  function Selected(directory: string, extension: string, names: seq<string>, regular: set<string>): (found: seq<string>)
    ensures |found| <= |names|
    ensures forall i :: 0 <= i < |found| ==> found[i] in regular
    decreases |names|
  {
    if names == [] then []
    else
      var last := names[|names| - 1];
      Selected(directory, extension, names[..|names| - 1], regular)
        + (if Keeps(directory, extension, last, regular) then [PathJoin(directory, last)] else [])
  }

  /** Every listed path comes from an entry that passes the filter. */
  lemma {:induction false} SelectedSound(directory: string, extension: string, names: seq<string>,
                                         regular: set<string>, file: string)
    requires file in Selected(directory, extension, names, regular)
    ensures exists i :: 0 <= i < |names| && Keeps(directory, extension, names[i], regular) && file == PathJoin(directory, names[i])
    decreases |names|
  {
    var init, last := names[..|names| - 1], names[|names| - 1];
    if file in Selected(directory, extension, init, regular) {
      SelectedSound(directory, extension, init, regular, file);
      var i :| 0 <= i < |init| && Keeps(directory, extension, init[i], regular) && file == PathJoin(directory, init[i]);
      assert names[i] == init[i];
    } else {
      assert Keeps(directory, extension, names[|names| - 1], regular);
    }
  }

  /** Every entry that passes the filter is listed. */
  lemma {:induction false} SelectedComplete(directory: string, extension: string, names: seq<string>,
                                            regular: set<string>, i: nat)
    requires i < |names| && Keeps(directory, extension, names[i], regular)
    ensures PathJoin(directory, names[i]) in Selected(directory, extension, names, regular)
    decreases |names|
  {
    var init := names[..|names| - 1];
    if i < |init| {
      assert names[i] == init[i];
      SelectedComplete(directory, extension, init, regular, i);
    }
  }

  /** A path is listed exactly when some entry passing the filter joins to it. */
  lemma {:induction false} SelectedMembership(directory: string, extension: string, names: seq<string>,
                           regular: set<string>, file: string)
    ensures file in Selected(directory, extension, names, regular) <==>
      exists i :: 0 <= i < |names| && Keeps(directory, extension, names[i], regular) && file == PathJoin(directory, names[i])
  {
    if file in Selected(directory, extension, names, regular) {
      SelectedSound(directory, extension, names, regular, file);
    } else if i :| 0 <= i < |names| && Keeps(directory, extension, names[i], regular) && file == PathJoin(directory, names[i]) {
      SelectedComplete(directory, extension, names, regular, i);
    }
  }

  /** With no extension, every entry that is a regular file is listed. */
  lemma {:induction false} AllRegularFilesListed(directory: string, names: seq<string>, regular: set<string>, i: nat)
    requires i < |names| && PathJoin(directory, names[i]) in regular
    ensures PathJoin(directory, names[i]) in Selected(directory, [], names, regular)
  {
    SelectedComplete(directory, [], names, regular, i);
  }

  /** Listing a concatenation lists each part in turn: the listing order is kept. */
  lemma {:induction false} SelectedConcat(directory: string, extension: string, a: seq<string>, b: seq<string>,
                                          regular: set<string>)
    ensures Selected(directory, extension, a + b, regular)
         == Selected(directory, extension, a, regular) + Selected(directory, extension, b, regular)
    decreases |b|
  {
    if b == [] {
      assert a + b == a;
    } else {
      var init := b[..|b| - 1];
      assert (a + b)[..|a + b| - 1] == a + init;
      assert (a + b)[|a + b| - 1] == b[|b| - 1];
      SelectedConcat(directory, extension, a, init, regular);
    }
  }

  // ---------------------------------------------------------------------
  // get_size_str, get_size_kb, get_size_mb

  const Kilo: nat := 1024
  const Mega: nat := 1024 * 1024

  /** `get_size_kb`: the size in whole kilobytes, rounded down. */
  function SizeKb(size: nat): (kb: nat)
    ensures kb * Kilo <= size < (kb + 1) * Kilo
  {
    size / Kilo
  }

  /** `get_size_mb`: the size in whole megabytes, rounded down. */
  function SizeMb(size: nat): (mb: nat)
    ensures mb * Mega <= size < (mb + 1) * Mega
  {
    size / Mega
  }

  function DigitChar(d: nat): (c: char)
    requires d < 10
    ensures '0' <= c <= '9'
  {
    ['0', '1', '2', '3', '4', '5', '6', '7', '8', '9'][d]
  }

  /** `str(n)` for a natural number. */
  function Decimal(n: nat): (s: string)
    ensures s != []
    ensures forall i :: 0 <= i < |s| ==> '0' <= s[i] <= '9'
    decreases n
  {
    if n < 10 then [DigitChar(n)] else Decimal(n / 10) + [DigitChar(n % 10)]
  }

  /** The number a string of decimal digits denotes. */
  function ParseDecimal(s: string): nat
    requires forall i :: 0 <= i < |s| ==> '0' <= s[i] <= '9'
    decreases |s|
  {
    if s == [] then 0 else 10 * ParseDecimal(s[..|s| - 1]) + ((s[|s| - 1] as int - '0' as int) as nat)
  }

  /** `Decimal` loses nothing: reading the digits back gives the number. */
  lemma {:induction false} DecimalRoundTrip(n: nat)
    ensures ParseDecimal(Decimal(n)) == n
    decreases n
  {
    var s := Decimal(n);
    if n >= 10 {
      DecimalRoundTrip(n / 10);
      assert s[..|s| - 1] == Decimal(n / 10);
    }
  }

  /** `get_size_str`: bytes below one kilobyte, kilobytes below one megabyte, megabytes beyond. */
  function SizeStr(size: nat): string {
    if size < Kilo then Decimal(size) + " bytes"
    else if size < Mega then Decimal(SizeKb(size)) + " KB"
    else Decimal(SizeMb(size)) + " MB"
  }

  /** The unit `get_size_str` prints tells which of the three ranges the size lies in. */
  lemma {:induction false} SizeStrUnit(size: nat)
    ensures EndsWith(SizeStr(size), " bytes") <==> size < Kilo
    ensures EndsWith(SizeStr(size), " KB") <==> Kilo <= size < Mega
    ensures EndsWith(SizeStr(size), " MB") <==> Mega <= size
  {
    var s := SizeStr(size);
    if size < Kilo {
      var d := Decimal(size);
      assert s[|s| - 3..] == "tes";
      assert s[|s| - 6..] == " bytes";
    } else if size < Mega {
      var d := Decimal(SizeKb(size));
      assert s[|s| - 3..] == " KB";
      assert |s| < 6 || s[|s| - 6..][3..] == " KB";
    } else {
      var d := Decimal(SizeMb(size));
      assert s[|s| - 3..] == " MB";
      assert |s| < 6 || s[|s| - 6..][3..] == " MB";
    }
  }

  /**
   * The number `get_size_str` prints is the size in its unit, rounded down,
   * and lies between 1 and 1023 for kilobytes, at least 1 for megabytes.
   */
  lemma {:induction false} SizeStrValue(size: nat)
    ensures size < Kilo ==> SizeStr(size) == Decimal(size) + " bytes"
    ensures Kilo <= size < Mega ==>
      SizeStr(size) == Decimal(size / Kilo) + " KB" && 1 <= size / Kilo < Kilo
    ensures Mega <= size ==> SizeStr(size) == Decimal(size / Mega) + " MB" && 1 <= size / Mega
  {
  }

  // ---------------------------------------------------------------------
  // source_to_target

  /** `source_to_target`: the source's base name without its last extension, in `dstPath`, with `dstExtension`. */
  function SourceToTarget(srcFile: string, dstPath: string, dstExtension: string): (target: string)
    ensures EndsWith(target, dstExtension)
  {
    var name := SplitExt(Basename(srcFile)).0 + dstExtension;
    var r := PathJoin(dstPath, name);
    EndsWithAppend(SplitExt(Basename(srcFile)).0, dstExtension);
    EndsWithTrans(r, name, dstExtension);
    r
  }

  /** The source's directory plays no part in the target. */
  lemma {:induction false} SourceDirectoryIgnored(directory: string, name: string, dstPath: string, dstExtension: string)
    requires '/' !in name
    ensures SourceToTarget(directory + "/" + name, dstPath, dstExtension) == SourceToTarget(name, dstPath, dstExtension)
  {
    BasenameOfChild(directory, name);
    assert RFind(name, '/') == -1;
    assert name[0..] == name;
  }

  /** The stem of `dir/stem.ext` is `stem`. */
  lemma {:induction false} StemOfChild(directory: string, stem: string, ext: string)
    requires stem != [] && '/' !in stem && stem[|stem| - 1] != '.'
    requires '/' !in ext && '.' !in ext
    ensures SplitExt(Basename(directory + "/" + stem + "." + ext)).0 == stem
  {
    var name := stem + "." + ext;
    assert directory + "/" + stem + "." + ext == directory + "/" + name;
    assert '/' !in name by {
      assert forall i :: 0 <= i < |name| ==> name[i] in stem || name[i] == '.' || name[i] in ext;
    }
    BasenameOfChild(directory, name);
    SplitExtOfSuffix(stem, ext);
  }

  /** Joining a relative name onto a directory without a trailing `/` inserts one. */
  lemma {:induction false} JoinRelative(dstPath: string, file: string)
    requires file != [] && file[0] != '/'
    requires dstPath != [] && dstPath[|dstPath| - 1] != '/'
    ensures PathJoin(dstPath, file) == dstPath + "/" + file
  {
    assert !StartsWith(file, "/") by {
      assert file[..1] != "/";
    }
    assert !EndsWith(dstPath, "/") by {
      assert dstPath[|dstPath| - 1..] != "/";
    }
  }

  /** `dir/stem.ext` becomes `dstPath/stem` followed by the new extension. */
  lemma {:induction false} SourceToTargetReplacesExtension(directory: string, stem: string, ext: string, dstPath: string, dstExtension: string)
    requires stem != [] && '/' !in stem && stem[|stem| - 1] != '.'
    requires '/' !in ext && '.' !in ext
    requires dstPath != [] && dstPath[|dstPath| - 1] != '/'
    ensures SourceToTarget(directory + "/" + stem + "." + ext, dstPath, dstExtension) == dstPath + "/" + stem + dstExtension
  {
    StemOfChild(directory, stem, ext);
    JoinRelative(dstPath, stem + dstExtension);
    assert dstPath + "/" + (stem + dstExtension) == dstPath + "/" + stem + dstExtension;
  }

  // ---------------------------------------------------------------------
  // The file store

  /** `LocalFSUtil` over a file system holding regular files only. */
  class LocalFsUtil {
    /** The regular files: path to text. */
    var files: map<string, string>

    constructor (initial: map<string, string>)
      ensures files == initial
    {
      files := initial;
    }

    /** `list_files` once `os.listdir(directory)` has returned `names`. */
    method ListFiles(directory: string, extension: string, names: seq<string>) returns (fileList: seq<string>)
      ensures fileList == Selected(directory, NormaliseExtension(extension), names, files.Keys)
    {
      var ext := extension;
      if ext != [] && !StartsWith(ext, ".") {
        ext := "." + ext;
      }
      fileList := [];
      for i := 0 to |names|
        invariant fileList == Selected(directory, ext, names[..i], files.Keys)
      {
        var fileName := names[i];
        assert names[..i + 1][..i] == names[..i];
        if ext == [] || EndsWith(fileName, ext) {
          var file := PathJoin(directory, fileName);
          if file in files {
            fileList := fileList + [file];
          }
        }
      }
      assert names[..|names|] == names;
    }

    /** `save_text`: refuses to replace an existing file unless told to overwrite. */
    method SaveText(dstFile: string, text: string, overwrite: bool) returns (saved: bool)
      modifies this
      ensures saved == (overwrite || dstFile !in old(files))
      ensures files == if saved then old(files)[dstFile := text] else old(files)
    {
      if !overwrite && dstFile in files {
        return false;
      }
      files := files[dstFile := text];
      return true;
    }

    /** `delete_file_if_empty`: removes a regular file of size 0, and nothing else. */
    method DeleteFileIfEmpty(path: string) returns (deleted: bool)
      modifies this
      ensures deleted == (path in old(files) && old(files)[path] == [])
      ensures files == if deleted then old(files) - {path} else old(files)
    {
      if path in files && |files[path]| == 0 {
        files := files - {path};
        return true;
      }
      return false;
    }

    /** `get_size_bytes`: the length of a regular file's text; `os.path.getsize` raises for a missing path. */
    function SizeBytes(file: string): (r: Result<nat, FsError>)
      reads this
      ensures r.Failure? <==> file !in files
      ensures r.Failure? ==> r.error == FileNotFound(file)
    {
      if file in files then Success(|files[file]|) else Failure(FileNotFound(file))
    }

    /** `get_size_kb` of a file: its size in whole kilobytes. */
    function GetSizeKb(file: string): (r: Result<nat, FsError>)
      reads this
      ensures r.Failure? <==> file !in files
      ensures r.Success? ==> r.value * Kilo <= |files[file]| < (r.value + 1) * Kilo
    {
      match SizeBytes(file)
      case Success(size) => Success(SizeKb(size))
      case Failure(e) => Failure(e)
    }

    /** `get_size_mb` of a file: its size in whole megabytes. */
    function GetSizeMb(file: string): (r: Result<nat, FsError>)
      reads this
      ensures r.Failure? <==> file !in files
      ensures r.Success? ==> r.value * Mega <= |files[file]| < (r.value + 1) * Mega
    {
      match SizeBytes(file)
      case Success(size) => Success(SizeMb(size))
      case Failure(e) => Failure(e)
    }

    /** `get_size_str` of a file: the unit follows the size; a missing path raises. */
    function GetSizeStr(file: string): (r: Result<string, FsError>)
      reads this
      ensures r.Failure? <==> file !in files
      ensures r.Success? ==> (EndsWith(r.value, " bytes") <==> |files[file]| < Kilo)
      ensures r.Success? ==> (EndsWith(r.value, " KB") <==> Kilo <= |files[file]| < Mega)
      ensures r.Success? ==> (EndsWith(r.value, " MB") <==> Mega <= |files[file]|)
    {
      match SizeBytes(file)
      case Success(size) =>
        SizeStrUnit(size);
        Success(SizeStr(size))
      case Failure(e) => Failure(e)
    }
  }
}
