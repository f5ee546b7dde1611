/**
 * `FFmpegAudioExtraction` in `src/video2audio/ffmpegaudioextraction.py`: the
 * dispatch on the destination's extension, and the overwrite policy and the
 * command line of the mp3 conversion.
 *
 * `os.system` is the class `Shell`, which records every command it is given;
 * what ffmpeg itself does to the file system is not modelled.
 */
module Video2Audio {
  import opened Wrappers
  import opened PyStrings
  import opened PyPaths
  import opened FsUtil

  /** `os.system`: runs a command and hands back its exit status. */
  class Shell {
    /** Every command run so far, oldest first. */
    var history: seq<string>
    /** The exit status each command would have. */
    const exitStatus: string -> int

    constructor (exitStatus: string -> int)
      ensures history == [] && this.exitStatus == exitStatus
    {
      history := [];
      this.exitStatus := exitStatus;
    }

    method System(cmd: string) returns (status: int)
      modifies this
      ensures history == old(history) + [cmd]
      ensures status == exitStatus(cmd)
    {
      history := history + [cmd];
      status := exitStatus(cmd);
    }
  }

  /** The exception `convert_to_audio` raises. */
  datatype ConversionError = UnsupportedFormat(extension: string)

  /** `str.upper()` on ASCII letters. */
  function Upper(s: string): (r: string)
    ensures |r| == |s|
    ensures forall i :: 0 <= i < |r| ==> !('a' <= r[i] <= 'z')
    ensures forall i :: 0 <= i < |r| ==> (r[i] == s[i] <==> !('a' <= s[i] <= 'z'))
    ensures forall i :: 0 <= i < |r| && 'a' <= s[i] <= 'z' ==>
      'A' <= r[i] <= 'Z' && r[i] as int - 'A' as int == s[i] as int - 'a' as int
  {
    seq(|s|, i requires 0 <= i < |s| => if 'a' <= s[i] <= 'z' then (s[i] as int - 32) as char else s[i])
  }

  /** Upper-casing twice is upper-casing once. */
  lemma {:induction false} UpperIdempotent(s: string)
    ensures Upper(Upper(s)) == Upper(s)
  {
    var u := Upper(s);
    forall i | 0 <= i < |u|
      ensures Upper(u)[i] == u[i]
    {
      assert !('a' <= u[i] <= 'z');
    }
  }

  /** The error for a lower-case `.mp4` destination reports `.MP4`; `.mp3` and `.MP3` both upper-case to `.MP3`. */
  lemma {:induction false} UpperExamples()
    ensures Upper(".mp4") == ".MP4"
    ensures Upper(".mp3") == ".MP3"
    ensures Upper(".MP3") == ".MP3"
  {
    var u := Upper(".mp4");
    assert u[0] == '.' && u[1] == 'M' && u[2] == 'P' && u[3] == '4';
    var w := Upper(".mp3");
    assert w[0] == '.' && w[1] == 'M' && w[2] == 'P' && w[3] == '3';
    var v := Upper(".MP3");
    assert v[0] == '.' && v[1] == 'M' && v[2] == 'P' && v[3] == '3';
  }

  /** The fixed prefix of every conversion command. */
  const CommandPrefix: string := "ffmpeg -hide_banner -loglevel error -i "

  /** The conversion settings the constructor stores. */
  const Mp3Settings: string := "-vn -acodec libmp3lame -ac 2 -ab 160k -ar 48000"

  /** `convert_to_audio` converts only when the extension is exactly `.mp3`. */
  predicate IsMp3Target(dstFile: string) {
    SplitExt(dstFile).1 == ".mp3"
  }

  /** For a name with a plain stem, the test is on the characters after the last dot, case included. */
  lemma {:induction false} Mp3TargetIff(stem: string, ext: string)
    requires stem != [] && stem[|stem| - 1] != '/' && stem[|stem| - 1] != '.'
    requires '.' !in ext && '/' !in ext
    ensures IsMp3Target(stem + "." + ext) <==> ext == "mp3"
  {
    SplitExtOfSuffix(stem, ext);
    if "." + ext == ".mp3" {
      assert ext == (".mp3")[1..];
    }
  }

  /** `out.mp3` is converted; `out.MP3` and a name without extension are not. */
  lemma {:induction false} Mp3TargetExamples()
    ensures IsMp3Target("out.mp3")
    ensures !IsMp3Target("out.MP3")
    ensures !IsMp3Target("out")
  {
    assert "out.mp3" == "out" + "." + "mp3";
    Mp3TargetIff("out", "mp3");
    assert "out.MP3" == "out" + "." + "MP3";
    Mp3TargetIff("out", "MP3");
    assert RFind("out", '.') == -1;
  }

  /** A command line built from a prefix, a source, the settings and a destination starts and ends as expected. */
  lemma {:induction false} CommandShape(prefix: string, src: string, settings: string, dst: string)
    ensures StartsWith(prefix + src + " " + settings + " " + dst, prefix)
    ensures EndsWith(prefix + src + " " + settings + " " + dst, " " + settings + " " + dst)
  {
    var tail := " " + settings + " " + dst;
    var cmd := prefix + src + " " + settings + " " + dst;
    assert cmd == prefix + (src + tail);
    assert cmd[..|prefix|] == prefix;
    assert cmd == (prefix + src) + tail;
    EndsWithAppend(prefix + src, tail);
  }

  class FfmpegAudioExtraction {
    const conversionSettings: string

    constructor ()
      ensures conversionSettings == Mp3Settings
    {
      conversionSettings := Mp3Settings;
    }

    /** `_escape_path`: the same chain of replacements as `escape_path`. */
    function EscapePath(path: string): (escaped: string)
      ensures escaped == FsUtil.EscapePath(path)
      ensures escaped == EscapeEach(path)
    {
      EscapePathPerCharacter(path);
      Replace(Replace(Replace(Replace(path, '(', "\\("), ')', "\\)"), ' ', "\\ "), '\'', "\\'")
    }

    /** The ffmpeg command line for converting `srcFile` into `dstFile`. */
    function Mp3Command(srcFile: string, dstFile: string): (cmd: string)
      reads this
      ensures StartsWith(cmd, CommandPrefix)
      ensures EndsWith(cmd, " " + conversionSettings + " " + EscapeEach(dstFile))
    {
      CommandShape(CommandPrefix, EscapePath(srcFile), conversionSettings, EscapePath(dstFile));
      CommandPrefix + EscapePath(srcFile) + " " + conversionSettings + " " + EscapePath(dstFile)
    }

    /** With no special character in either path, the paths appear in the command as they are. */
    lemma {:induction false} PlainPathsUnchanged(srcFile: string, dstFile: string)
      requires forall i :: 0 <= i < |srcFile| ==> !IsSpecial(srcFile[i])
      requires forall i :: 0 <= i < |dstFile| ==> !IsSpecial(dstFile[i])
      ensures Mp3Command(srcFile, dstFile) == CommandPrefix + srcFile + " " + conversionSettings + " " + dstFile
    {
      EachPlain(srcFile);
      EachPlain(dstFile);
    }

    /**
     * `convert_to_mp3`. An existing destination without `overwrite` gives
     * false and runs nothing. Otherwise an existing destination is removed
     * first, the command is run once, and the result is true whatever exit
     * status the command has.
     */
    method ConvertToMp3(fs: LocalFsUtil, shell: Shell, srcFile: string, dstFile: string, overwrite: bool)
      returns (converted: bool)
      modifies fs, shell
      ensures converted == (overwrite || dstFile !in old(fs.files))
      ensures !converted ==> fs.files == old(fs.files) && shell.history == old(shell.history)
      ensures converted ==> fs.files == old(fs.files) - {dstFile}
      ensures converted ==> shell.history == old(shell.history) + [Mp3Command(srcFile, dstFile)]
    {
      if dstFile in fs.files {
        if overwrite {
          fs.files := fs.files - {dstFile};
        } else {
          return false;
        }
      }
      var srcFileEscaped := EscapePath(srcFile);
      var dstFileEscaped := EscapePath(dstFile);
      var cmd := CommandPrefix + srcFileEscaped + " " + conversionSettings + " " + dstFileEscaped;
      var response := shell.System(cmd);
      return true;
    }

    /** `convert_to_audio`: an mp3 destination is converted; any other extension is an error, with nothing done. */
    method ConvertToAudio(fs: LocalFsUtil, shell: Shell, srcFile: string, dstFile: string, overwrite: bool)
      returns (r: Result<bool, ConversionError>)
      modifies fs, shell
      ensures !IsMp3Target(dstFile) ==>
        r == Failure(UnsupportedFormat(Upper(SplitExt(dstFile).1)))
        && fs.files == old(fs.files) && shell.history == old(shell.history)
      ensures IsMp3Target(dstFile) ==> r == Success(overwrite || dstFile !in old(fs.files))
      ensures IsMp3Target(dstFile) && r.value ==>
        fs.files == old(fs.files) - {dstFile} && shell.history == old(shell.history) + [Mp3Command(srcFile, dstFile)]
      ensures IsMp3Target(dstFile) && !r.value ==> fs.files == old(fs.files) && shell.history == old(shell.history)
    {
      var dstExtension := SplitExt(dstFile).1;
      if dstExtension == ".mp3" {
        var converted := ConvertToMp3(fs, shell, srcFile, dstFile, overwrite);
        return Success(converted);
      } else {
        return Failure(UnsupportedFormat(Upper(dstExtension)));
      }
    }
  }
}
