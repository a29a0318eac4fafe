/** Path handling used by `process_file` (app.py:160, 169-172): Python's `os.path.splitext`,
    `str.lower` on the extension, `os.path.join`, and the two extension allow-lists. */
module Paths {
  import opened Wrappers

  /** The separators of `posixpath` (`/`) or `ntpath` (`\` with `/` as alternative). */
  datatype PathFlavor = PathFlavor(sep: char, altSep: Option<char>)

  const PosixPaths: PathFlavor := PathFlavor('/', None)
  const WindowsPaths: PathFlavor := PathFlavor('\\', Some('/'))

  /** Both real flavors separate with `/` or `\`. */
  predicate ValidFlavor(f: PathFlavor) {
    && (f.sep == '/' || f.sep == '\\')
    && (f.altSep.Some? ==> f.altSep.value == '/' || f.altSep.value == '\\')
  }

  function SepChars(f: PathFlavor): (cs: set<char>)
    requires ValidFlavor(f)
    ensures f.sep in cs
    ensures forall c :: c in cs ==> c == '/' || c == '\\'
  {
    {f.sep} + (if f.altSep.Some? then {f.altSep.value} else {})
  }

  /** `s.rfind(c)` generalised to a set of characters: the last index holding one of `cs`, or -1. */
  function LastIndex(s: string, cs: set<char>): (r: int)
    ensures -1 <= r < |s|
    ensures r >= 0 ==> s[r] in cs
  {
    if s == [] then -1
    else if s[|s| - 1] in cs then |s| - 1
    else LastIndex(s[..|s| - 1], cs)
  }

  /** Every character of `s` from index `i` up to `j` is a dot. */
  predicate DotsBetween(s: string, i: int, j: int)
    requires 0 <= i && j <= |s|
  {
    forall k :: i <= k < j ==> s[k] == '.'
  }

  /** Where the extension of `p` starts in `os.path.splitext(p)`, or -1 when it has none: the
      last dot of the last path component, provided that dot is preceded in the component by
      something other than dots (so `.bashrc` and `a/..` have no extension). */
  function ExtensionStart(f: PathFlavor, p: string): (i: int)
    requires ValidFlavor(f)
    ensures -1 <= i < |p|
    ensures i >= 0 ==> p[i] == '.'
  {
    var sepIndex := LastIndex(p, SepChars(f));
    var dotIndex := LastIndex(p, {'.'});
    if dotIndex > sepIndex && !DotsBetween(p, sepIndex + 1, dotIndex) then dotIndex else -1
  }

  /** The last element of `os.path.splitext(p)`. */
  function Extension(f: PathFlavor, p: string): (e: string)
    requires ValidFlavor(f)
    ensures |e| <= |p| && e == p[|p| - |e|..]
    ensures e != [] ==> e[0] == '.' && ExtensionBody(f, e[1..])
  {
    var i := ExtensionStart(f, p);
    if i < 0 then []
    else
      LastIndexIsLast(p, {'.'});
      LastIndexIsLast(p, SepChars(f));
      p[i..]
  }

  /** What may follow the dot of an extension: neither dots nor separators. */
  predicate ExtensionBody(f: PathFlavor, s: string)
    requires ValidFlavor(f)
  {
    forall k :: 0 <= k < |s| ==> s[k] != '.' && s[k] !in SepChars(f)
  }

  function LowerChar(c: char): (l: char)
    ensures !('A' <= l <= 'Z')
  {
    if 'A' <= c <= 'Z' then (c as int + ('a' as int - 'A' as int)) as char else c
  }

  /** `str.lower()`, restricted to ASCII letters. */
  function Lower(s: string): (r: string)
    ensures |r| == |s|
    ensures forall i :: 0 <= i < |s| ==> r[i] == LowerChar(s[i])
  {
    seq(|s|, i requires 0 <= i < |s| => LowerChar(s[i]))
  }

  /** `os.path.splitext(file_path)[-1].lower()` (app.py:160). */
  function FileExt(f: PathFlavor, p: string): string
    requires ValidFlavor(f)
  {
    Lower(Extension(f, p))
  }

  const AudioExtensions: seq<string> := [".mp3", ".wav", ".m4a"]
  const VideoExtensions: seq<string> := [".mp4", ".avi", ".mov"]

  datatype FileKind = Audio | Video | Unsupported

  /** The branch `process_file` takes on a lower-cased extension (app.py:169-179). */
  function Classify(ext: string): (k: FileKind)
    ensures k == Audio <==> ext in AudioExtensions
    ensures k == Video <==> ext in VideoExtensions
  {
    if ext in AudioExtensions then Audio
    else if ext in VideoExtensions then Video
    else Unsupported
  }

  function KindOf(f: PathFlavor, p: string): FileKind
    requires ValidFlavor(f)
  {
    Classify(FileExt(f, p))
  }

  /** `os.path.join(dir, name)`: `name` alone when it is absolute, otherwise one separator
      between the two unless `dir` is empty or already ends in one. */
  function JoinPath(f: PathFlavor, dir: string, name: string): (r: string)
    requires ValidFlavor(f)
    ensures name != [] && name[0] in SepChars(f) ==> r == name
    ensures (name == [] || name[0] !in SepChars(f)) ==> |r| == |dir| + |name| || |r| == |dir| + 1 + |name|
    ensures (name == [] || name[0] !in SepChars(f)) ==> r[..|dir|] == dir && r[|r| - |name|..] == name
    // a separator is put in exactly when `dir` is non-empty and does not already end in one
    ensures (name == [] || name[0] !in SepChars(f)) ==>
              (|r| == |dir| + 1 + |name| <==> dir != [] && dir[|dir| - 1] !in SepChars(f))
    ensures (name == [] || name[0] !in SepChars(f)) && |r| == |dir| + 1 + |name| ==> r[|dir|] == f.sep
  {
    if name != [] && name[0] in SepChars(f) then name
    else if dir == [] || dir[|dir| - 1] in SepChars(f) then dir + name
    else dir + [f.sep] + name
  }

  /** `os.path.join(tempfile.gettempdir(), "temp_extracted.wav")` (app.py:172). */
  function TempAudioPath(f: PathFlavor, tempDir: string): string
    requires ValidFlavor(f)
  {
    JoinPath(f, tempDir, "temp_extracted.wav")
  }

  // ---------------------------------------------------------------------------------------
  // Properties

  lemma {:induction false} LastIndexAppendFree(a: string, b: string, cs: set<char>)
    requires forall k :: 0 <= k < |b| ==> b[k] !in cs
    ensures LastIndex(a + b, cs) == LastIndex(a, cs)
    decreases |b|
  {
    if b != [] {
      var b' := b[..|b| - 1];
      assert (a + b)[..|a + b| - 1] == a + b';
      LastIndexAppendFree(a, b', cs);
    } else {
      assert a + b == a;
    }
  }

  /** Where a dot follows the last separator and a non-dot character of the last component
      precedes it, the extension runs from that dot to the end. */
  lemma ExtensionAtDot(f: PathFlavor, s: string, dotIndex: int, k: int)
    requires ValidFlavor(f)
    requires dotIndex == LastIndex(s, {'.'})
    requires LastIndex(s, SepChars(f)) < k < dotIndex && s[k] != '.'
    ensures Extension(f, s) == s[dotIndex..]
  {
    assert ExtensionStart(f, s) == dotIndex;
  }

  /** A string with neither a dot nor a separator of either flavor. */
  predicate PlainName(s: string) {
    forall k :: 0 <= k < |s| ==> s[k] != '.' && s[k] != '/' && s[k] != '\\'
  }

  /** Proof step: a dot followed only by non-dots is the last dot. */
  lemma LastDotBeforeFreeTail(head: string, ext: string)
    requires head != [] && head[|head| - 1] == '.' && PlainName(ext)
    ensures LastIndex(head + ext, {'.'}) == |head| - 1
  {
    assert forall k :: 0 <= k < |ext| ==> ext[k] !in {'.'};
    LastIndexAppendFree(head, ext, {'.'});
  }

  /** The last dot of `p + name + "." + ext` is the one before `ext`. */
  lemma DotIndexOfSuffix(p: string, name: string, ext: string)
    requires PlainName(ext)
    ensures LastIndex(p + name + "." + ext, {'.'}) == |p| + |name|
  {
    var head := p + name + ".";
    assert head[|head| - 1] == '.';
    LastDotBeforeFreeTail(head, ext);
  }

  /** A string with no separator of either flavor. */
  predicate NoSlash(s: string) {
    forall k :: 0 <= k < |s| ==> s[k] != '/' && s[k] != '\\'
  }

  /** Proof step: `name.ext` holds no separator when neither part does. */
  lemma PlainTailNoSlash(name: string, ext: string)
    requires NoSlash(name) && PlainName(ext)
    ensures NoSlash(name + "." + ext)
  {
    var tail := name + "." + ext;
    forall k | 0 <= k < |tail| ensures tail[k] != '/' && tail[k] != '\\' {
      if k < |name| { assert tail[k] == name[k]; }
      else if k > |name| { assert tail[k] == ext[k - |name| - 1]; }
    }
  }

  /** Proof step: with no separator in `tail`, the last separator of `p + tail` lies in `p`. */
  lemma LastIndexBeforeFreeTail(f: PathFlavor, p: string, tail: string)
    requires ValidFlavor(f) && NoSlash(tail)
    ensures LastIndex(p + tail, SepChars(f)) < |p|
  {
    LastIndexAppendFree(p, tail, SepChars(f));
  }

  /** Proof step: regrouping the concatenation `p + name + "." + ext`. Kept apart so that
      the associativity fact is not mixed with the quantifiers of `PlainName`. */
  lemma LastIndexRegroup(f: PathFlavor, p: string, name: string, ext: string)
    requires ValidFlavor(f)
    requires LastIndex(p + (name + "." + ext), SepChars(f)) < |p|
    ensures LastIndex(p + name + "." + ext, SepChars(f)) < |p|
  {
    assert p + name + "." + ext == p + (name + "." + ext);
  }

  /** No separator of `p + name + "." + ext` lies after `p`. */
  lemma SepIndexOfSuffix(f: PathFlavor, p: string, name: string, ext: string)
    requires ValidFlavor(f) && NoSlash(name) && PlainName(ext)
    ensures LastIndex(p + name + "." + ext, SepChars(f)) < |p|
  {
    PlainTailNoSlash(name, ext);
    LastIndexBeforeFreeTail(f, p, name + "." + ext);
    LastIndexRegroup(f, p, name, ext);
  }

  /** A path whose last component is `name.ext` has the extension `.ext`, whatever precedes
      it, provided `ext` holds no dot, `/` or `\`, `name` holds no `/` or `\`, and `name` has
      a character other than a dot (so `a..mp3` has `.mp3`, while `..mp3` has none). The
      components that have no extension are covered by `NoExtensionWithoutInnerDot`. */
  lemma ExtensionOfSuffix(f: PathFlavor, p: string, name: string, ext: string, k: nat)
    requires ValidFlavor(f)
    requires NoSlash(name) && k < |name| && name[k] != '.' && PlainName(ext)
    ensures Extension(f, p + name + "." + ext) == "." + ext
  {
    var s := p + name + "." + ext;
    DotIndexOfSuffix(p, name, ext);
    SepIndexOfSuffix(f, p, name, ext);
    SuffixShape(p, name, ext, k);
    ExtensionAtDot(f, s, |p| + |name|, |p| + k);
  }

  /** Proof step: where `name` and `.ext` sit in `p + name + "." + ext`. */
  lemma SuffixShape(p: string, name: string, ext: string, k: nat)
    requires k < |name|
    ensures (p + name + "." + ext)[|p| + k] == name[k]
    ensures (p + name + "." + ext)[|p| + |name|..] == "." + ext
  {
    var s := p + name + "." + ext;
    assert s[|p| + k] == name[k];
    assert s[|p| + |name|..] == "." + ext;
  }

  /** Proof step: a component made of leading dots and a plain rest holds no separator. */
  lemma LeadingDotsNoSlash(lead: string, rest: string)
    requires forall k :: 0 <= k < |lead| ==> lead[k] == '.'
    requires PlainName(rest)
    ensures NoSlash(lead + rest)
  {
    var t := lead + rest;
    forall k | 0 <= k < |t| ensures t[k] != '/' && t[k] != '\\' {
      if k >= |lead| { assert t[k] == rest[k - |lead|]; }
    }
  }

  /** Proof step: the last dot of `dir + rest`, for a plain `rest`, lies in `dir`. */
  lemma LastDotInHead(dir: string, rest: string)
    requires PlainName(rest)
    ensures LastIndex(dir + rest, {'.'}) == LastIndex(dir, {'.'})
  {
    assert forall k :: 0 <= k < |rest| ==> rest[k] !in {'.'};
    LastIndexAppendFree(dir, rest, {'.'});
  }

  /** The other half of `splitext`: a last component that is some leading dots (perhaps
      none) followed by a name without a dot, `/` or `\` has no extension, whatever directory
      (empty, or ending in a separator) precedes it
      (`splitext("a.b/c")`, `splitext("x/.bashrc")` and `splitext("..")` all give `""`). */
  lemma NoExtensionWithoutInnerDot(f: PathFlavor, dir: string, lead: string, rest: string)
    requires ValidFlavor(f)
    requires dir == [] || dir[|dir| - 1] in SepChars(f)
    requires forall k :: 0 <= k < |lead| ==> lead[k] == '.'
    requires PlainName(rest)
    ensures Extension(f, dir + lead + rest) == ""
  {
    var s := dir + lead + rest;
    assert s == dir + (lead + rest);
    LeadingDotsNoSlash(lead, rest);
    LastIndexBeforeFreeTail(f, dir, lead + rest);
    LastIndexAppendFree(dir, lead + rest, SepChars(f));
    var sepIndex := LastIndex(s, SepChars(f));
    assert sepIndex == |dir| - 1;
    LastDotInHead(dir + lead, rest);
    var dotIndex := LastIndex(s, {'.'});
    if lead == [] {
      assert dir + lead == dir;
      assert dotIndex <= sepIndex;
    } else {
      LastDotBeforeFreeTail(dir + lead, []);
      assert dir + lead + [] == dir + lead;
      assert dotIndex == |dir| + |lead| - 1;
      assert DotsBetween(s, sepIndex + 1, dotIndex) by {
        forall k | sepIndex + 1 <= k < dotIndex ensures s[k] == '.' {
          assert s[k] == lead[k - |dir|];
        }
      }
    }
    assert ExtensionStart(f, s) == -1;
  }

  /** No character after the last index is one of `cs`. */
  lemma {:induction false} LastIndexIsLast(s: string, cs: set<char>)
    ensures forall k :: LastIndex(s, cs) < k < |s| ==> s[k] !in cs
    decreases |s|
  {
    if s != [] && s[|s| - 1] !in cs {
      var init := s[..|s| - 1];
      LastIndexIsLast(init, cs);
      forall k | LastIndex(s, cs) < k < |s| - 1 ensures s[k] !in cs {
        assert s[k] == init[k];
      }
    }
  }

  lemma LastIndexLower(s: string, cs: set<char>)
    requires forall c :: c in cs ==> c == '/' || c == '\\' || c == '.'
    ensures LastIndex(Lower(s), cs) == LastIndex(s, cs)
  {
    var r := LastIndex(s, cs);
    LastIndexIsLast(s, cs);
    var l := Lower(s);
    forall k | 0 <= k < |s| ensures (l[k] in cs) == (s[k] in cs) {
      assert l[k] == LowerChar(s[k]);
    }
    LastIndexUnique(l, cs, r);
  }

  /** `LastIndex` is the only index with its defining property. */
  lemma LastIndexUnique(s: string, cs: set<char>, r: int)
    requires -1 <= r < |s|
    requires r >= 0 ==> s[r] in cs
    requires forall k :: r < k < |s| ==> s[k] !in cs
    ensures LastIndex(s, cs) == r
  {
  }

  lemma LowerIdempotent(s: string)
    ensures Lower(Lower(s)) == Lower(s)
  {
  }

  lemma LowerSuffix(s: string, i: int)
    requires 0 <= i <= |s|
    ensures Lower(s)[i..] == Lower(s[i..])
  {
  }

  lemma ExtensionStartLower(f: PathFlavor, p: string)
    requires ValidFlavor(f)
    ensures ExtensionStart(f, Lower(p)) == ExtensionStart(f, p)
  {
    var l := Lower(p);
    LastIndexLower(p, SepChars(f));
    LastIndexLower(p, {'.'});
    var sepIndex := LastIndex(p, SepChars(f));
    var dotIndex := LastIndex(p, {'.'});
    if dotIndex > sepIndex {
      forall k | sepIndex + 1 <= k < dotIndex ensures (l[k] == '.') == (p[k] == '.') {
        assert l[k] == LowerChar(p[k]);
      }
      assert DotsBetween(l, sepIndex + 1, dotIndex) == DotsBetween(p, sepIndex + 1, dotIndex);
    }
  }

  /** The extension of a lower-cased path is the lower-cased extension. */
  lemma ExtensionLower(f: PathFlavor, p: string)
    requires ValidFlavor(f)
    ensures Extension(f, Lower(p)) == Lower(Extension(f, p))
  {
    ExtensionStartLower(f, p);
    var i := ExtensionStart(f, p);
    if i >= 0 {
      LowerSuffix(p, i);
    }
  }

  /** Changing the case of the letters of a path does not change its kind: the extension is
      found at the same place and compared after lower-casing. */
  lemma KindIgnoresCase(f: PathFlavor, p: string)
    requires ValidFlavor(f)
    ensures FileExt(f, Lower(p)) == FileExt(f, p)
    ensures KindOf(f, Lower(p)) == KindOf(f, p)
  {
    ExtensionLower(f, p);
    LowerIdempotent(Extension(f, p));
  }

  /** `.wav` is already lower-case and is an audio extension. */
  lemma WavIsAudio()
    ensures Lower(".wav") == ".wav"
    ensures Classify(".wav") == Audio
  {
  }

  /** A file `name.wav` in any directory is an audio file, provided `name` holds no `/` or `\`
      and has a character other than a dot at index `k` (so `a.b.wav` is audio, while `.wav`
      and `...wav` are not). */
  lemma WavFileIsAudio(f: PathFlavor, dir: string, name: string, k: nat)
    requires ValidFlavor(f)
    requires NoSlash(name) && k < |name| && name[k] != '.'
    ensures FileExt(f, dir + name + ".wav") == ".wav"
    ensures KindOf(f, dir + name + ".wav") == Audio
  {
    assert PlainName("wav");
    assert dir + name + ".wav" == dir + name + "." + "wav";
    ExtensionOfSuffix(f, dir, name, "wav", k);
    WavIsAudio();
  }

  /** The extracted audio of a video always has the extension `.wav`, whatever the temporary
      directory is called. */
  lemma TempAudioPathIsWav(f: PathFlavor, tempDir: string)
    requires ValidFlavor(f)
    ensures FileExt(f, TempAudioPath(f, tempDir)) == ".wav"
    ensures KindOf(f, TempAudioPath(f, tempDir)) == Audio
  {
    var name := "temp_extracted";
    assert NoSlash(name);
    var file := "temp_extracted.wav";
    assert file[0] !in SepChars(f);
    var dir := if tempDir == [] || tempDir[|tempDir| - 1] in SepChars(f) then tempDir else tempDir + [f.sep];
    assert TempAudioPath(f, tempDir) == dir + file;
    assert dir + file == dir + name + ".wav";
    WavFileIsAudio(f, dir, name, 0);
  }

  /** An upper-case audio extension is recognised after lower-casing. */
  lemma UpperCaseExtensionExample()
    ensures FileExt(PosixPaths, "talk.MP3") == ".mp3"
    ensures KindOf(PosixPaths, "talk.MP3") == Audio
  {
    var p := "talk.MP3";
    LastIndexUnique(p, {'.'}, 4);
    assert SepChars(PosixPaths) == {'/'};
    LastIndexUnique(p, {'/'}, -1);
    assert !DotsBetween(p, 0, 4) by { assert p[0] != '.'; }
    assert ExtensionStart(PosixPaths, p) == 4;
    assert "talk.MP3"[4..] == ".MP3";
    assert LowerChar('M') == 'm' && LowerChar('P') == 'p';
    assert Lower(".MP3") == ".mp3";
  }

  /** A name whose only dot leads it has no extension (`splitext(".bashrc")` is
      `(".bashrc", "")`), so it is an unsupported file. */
  lemma LeadingDotExample()
    ensures Extension(PosixPaths, ".mp3") == ""
    ensures KindOf(PosixPaths, ".mp3") == Unsupported
  {
    LastIndexUnique(".mp3", {'.'}, 0);
  }

  /** A dot in a directory name is not an extension: only the last component counts. */
  lemma DirectoryDotExample()
    ensures Extension(WindowsPaths, "rec.mp4\\clip") == ""
    ensures Extension(PosixPaths, "rec.mp4\\clip") == ".mp4\\clip"
  {
    var p := "rec.mp4\\clip";
    LastIndexUnique(p, {'.'}, 3);
    assert SepChars(WindowsPaths) == {'\\', '/'};
    LastIndexUnique(p, {'\\', '/'}, 7);
    assert ExtensionStart(WindowsPaths, p) == -1;
    assert SepChars(PosixPaths) == {'/'};
    LastIndexUnique(p, {'/'}, -1);
    assert !DotsBetween(p, 0, 3) by { assert p[0] != '.'; }
    assert ExtensionStart(PosixPaths, p) == 3;
  }
}
