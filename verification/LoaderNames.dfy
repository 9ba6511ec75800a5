/** The strings of the loader: names of create functions and configurations (loader.c). */
module LoaderNames {
  import opened CStrings

  const PATH_MAX_LENGTH: nat := 4096
  const ABI_VERSION: int := 2
  const PREFIX: cstring := "qrvmc_create_"

  // ---------- the symbol name ----------

  /** The part of s after its last c, or all of it. */
  function AfterLast(s: string, c: char): (r: string)
    ensures |r| <= |s| && r == s[|s| - |r|..]
  {
    if s == "" || s[|s| - 1] == c then "" else AfterLast(s[..|s| - 1], c) + [s[|s| - 1]]
  }

  function WithoutLib(s: string): (r: string)
    ensures |r| <= |s| && r == s[|s| - |r|..]
  {
    if "lib" <= s then s[3..] else s
  }

  function Undash(c: char): char {
    if c == '-' then '_' else c
  }

  function Undashed(s: string): (r: string)
    ensures |r| == |s| && forall i :: 0 <= i < |s| ==> r[i] == Undash(s[i])
  {
    if s == "" then "" else Undashed(s[..|s| - 1]) + [Undash(s[|s| - 1])]
  }

  /** The base name: after the last slash, without one "lib", up to the first dot, with underscores for dashes. */
  function BaseName(filename: string): string {
    Undashed(Before(WithoutLib(AfterLast(filename, '/')), '.'))
  }

  lemma {:induction false} AfterLastHasNone(s: string, c: char)
    ensures c !in AfterLast(s, c)
  {
    if s != "" {
      AfterLastHasNone(s[..|s| - 1], c);
    }
  }

  /** The base name is part of the file's name only: no directory, extension or dash is left in it. */
  lemma BaseNameClean(filename: string)
    ensures '/' !in BaseName(filename) && '.' !in BaseName(filename) && '-' !in BaseName(filename)
  {
    hide AfterLast, Before, Undashed;
    AfterLastHasNone(filename, '/');
    var name := AfterLast(filename, '/');
    assert forall c :: c in WithoutLib(name) ==> c in name;
    BeforeAfter(WithoutLib(name), '.');
    UndashedChars(Before(WithoutLib(name), '.'));
  }

  /** The symbol for a module of this name in any directory and with any extensions; one "lib" before the name makes no
      difference. */
  lemma SymbolOf(dir: string, name: string, extensions: string)
    requires dir == "" || dir[|dir| - 1] == '/'
    requires '/' !in name && '.' !in name && '/' !in extensions && (extensions != "" ==> extensions[0] == '.')
    ensures var symbol := PREFIX + BaseName(dir + "lib" + name + extensions);
      && |symbol| == |"qrvmc_create_"| + |name| && "qrvmc_create_" <= symbol
      && forall i :: 0 <= i < |name| ==>
           symbol[|"qrvmc_create_"| + i] == if name[i] == '-' then '_' else name[i]
    ensures !("lib" <= name) ==>
      BaseName(dir + name + extensions) == BaseName(dir + "lib" + name + extensions)
  {
    hide BaseName, Undashed;
    BaseNameOf(dir, name, extensions);
    SymbolChars(name);
  }

  lemma SymbolChars(name: string)
    ensures var symbol := PREFIX + Undashed(name);
      && |symbol| == |"qrvmc_create_"| + |name| && "qrvmc_create_" <= symbol
      && forall i :: 0 <= i < |name| ==>
           symbol[|"qrvmc_create_"| + i] == if name[i] == '-' then '_' else name[i]
  {
    hide Undashed;
    assert forall i :: 0 <= i < |name| ==> Undashed(name)[i] == Undash(name[i]);
  }

  lemma BaseNameOf(dir: string, name: string, extensions: string)
    requires dir == "" || dir[|dir| - 1] == '/'
    requires '/' !in name && '.' !in name && '/' !in extensions && (extensions != "" ==> extensions[0] == '.')
    ensures BaseName(dir + "lib" + name + extensions) == Undashed(name)
    ensures !("lib" <= name) ==> BaseName(dir + name + extensions) == Undashed(name)
  {
    hide Before, Undashed, WithoutLib, BaseName;
    var file := name + extensions;
    Reassociated(dir, "lib", name, extensions);
    BaseOfFile(dir, "lib" + file);
    BaseOfFile(dir, file);
    LibDropped(file);
    NameCut(name, extensions);
    if !("lib" <= name) {
      NoLib(name, extensions);
    }
  }

  lemma Reassociated(a: string, b: string, c: string, d: string)
    ensures a + b + c + d == a + (b + (c + d)) && a + c + d == a + (c + d)
  {
  }

  lemma BaseOfFile(dir: string, file: string)
    requires (dir == "" || dir[|dir| - 1] == '/') && '/' !in file
    ensures BaseName(dir + file) == Undashed(Before(WithoutLib(file), '.'))
  {
    hide AfterLast, Before, Undashed, WithoutLib;
    FileName(dir, file);
  }

  lemma LibDropped(file: string)
    ensures WithoutLib("lib" + file) == file
  {
    assert ("lib" + file)[3..] == file;
  }

  lemma NameCut(name: string, extensions: string)
    requires '.' !in name && (extensions != "" ==> extensions[0] == '.')
    ensures Before(name + extensions, '.') == name
  {
    var file := name + extensions;
    assert file[..|name|] == name;
    CutAt(file, '.', |name|);
  }

  lemma NoLib(name: string, extensions: string)
    requires !("lib" <= name) && (extensions != "" ==> extensions[0] == '.')
    ensures WithoutLib(name + extensions) == name + extensions
  {
    var file := name + extensions;
    if |name| >= 3 {
      assert name[..3] == file[..3];
    } else if extensions != "" {
      assert file[|name|] == '.';
      assert "lib"[0] == 'l' && "lib"[1] == 'i' && "lib"[2] == 'b';
    }
  }

  lemma FileName(dir: string, file: string)
    requires (dir == "" || dir[|dir| - 1] == '/') && '/' !in file
    ensures AfterLast(dir + file, '/') == file
  {
    hide AfterLast;
    assert (dir + file)[|dir|..] == file;
    AfterLastIs(dir + file, '/', |dir|);
  }

  lemma UndashedChars(s: string)
    ensures forall c :: c in Undashed(s) ==> c != '-' && (c == '_' || c in s)
  {
  }

  lemma {:induction false} AfterLastIs(s: string, c: char, k: nat)
    requires k <= |s| && c !in s[k..] && (k > 0 ==> s[k - 1] == c)
    ensures AfterLast(s, c) == s[k..]
    decreases |s|
  {
    hide AfterLast;
    AfterLastEnd(s, c);
    if k < |s| {
      var (most, last) := (s[..|s| - 1], s[|s| - 1]);
      assert s[k..] == most[k..] + [last];
      AfterLastIs(most, c, k);
    }
  }

  lemma AfterLastEnd(s: string, c: char)
    ensures AfterLast(s, c) ==
      if s == "" || s[|s| - 1] == c then "" else AfterLast(s[..|s| - 1], c) + [s[|s| - 1]]
  {
  }

  /** The name after the last slash, by a search from the end. */
  method NameStart(filename: cstring) returns (pos: nat)
    ensures pos <= |filename| && filename[pos..] == AfterLast(filename, '/')
  {
    pos := |filename|;
    while pos > 0 && filename[pos - 1] != '/'
      invariant pos <= |filename| && '/' !in filename[pos..]
    {
      assert filename[pos - 1..] == [filename[pos - 1]] + filename[pos..];
      pos := pos - 1;
    }
    AfterLastIs(filename, '/', pos);
  }

  /** The dashes of the string at p, replaced in place. */
  method ReplaceDashes(buf: array<char>, p: nat, ghost end: nat)
    requires Ends(buf[..], p, end)
    modifies buf
    ensures Ends(buf[..], p, end) && buf[p..end] == Undashed(old(buf[p..end]))
    ensures forall k :: 0 <= k < buf.Length && !(p <= k < end) ==> buf[k] == old(buf[k])
  {
    hide Before;
    var dashPos := p;
    var found := true;
    while found
      invariant p <= dashPos <= end < buf.Length && buf[end] == NUL
      invariant forall k :: p <= k < end ==> buf[k] != NUL
      invariant forall k :: p <= k < dashPos ==> buf[k] == Undash(old(buf[k]))
      invariant forall k :: 0 <= k < buf.Length && !(p <= k < dashPos) ==> buf[k] == old(buf[k])
      invariant !found ==> forall k :: dashPos <= k < end ==> buf[k] != '-'
      decreases end - dashPos, found
    {
      assert Ends(buf[..], dashPos, end);
      CStrEnds(buf[..], dashPos, end);
      var pos;
      found, pos := StrChr(buf, dashPos, '-');
      if found {
        assert forall k :: dashPos <= k < pos ==> buf[k] == buf[dashPos..pos][k - dashPos];
        buf[pos] := '_';
        dashPos := pos + 1;
      } else {
        assert forall k :: dashPos <= k < end ==> buf[k] == buf[..][dashPos..end][k - dashPos];
      }
    }
  }

  /** The buffer holds the prefix and then the base name. */
  ghost predicate Named(b: seq<char>, base: string) {
    && |PREFIX| + |base| < |b|
    && Ends(b, |PREFIX|, |PREFIX| + |base|)
    && b[..|PREFIX|] == PREFIX && b[|PREFIX|..|PREFIX| + |base|] == base
  }

  lemma NamedString(b: seq<char>, base: string)
    requires Named(b, base)
    ensures Ends(b, 0, |PREFIX| + |base|) && CStr(b, 0) == PREFIX + base
  {
    var p, end := |PREFIX|, |PREFIX| + |base|;
    forall k | 0 <= k < p
      ensures b[k] != NUL
    {
      assert b[k] == PREFIX[k];
    }
    CStrEnds(b, 0, end);
    assert b[0..end] == b[..p] + b[p..end];
  }

  method JoinPrefix(name: array<char>, base: cstring)
    requires |base| < PATH_MAX_LENGTH && name.Length == |PREFIX| + 1 + PATH_MAX_LENGTH
    modifies name
    ensures Named(name[..], base)
  {
    hide Before;
    var code := StrCpySx(name, 0, name.Length, PREFIX);
    CStrEnds(name[..], 0, |PREFIX|);
    assert name[..][..|PREFIX|] == PREFIX;
    label Prefixed:
    code := StrCpySx(name, |PREFIX|, PATH_MAX_LENGTH, base);
    CStrEnds(name[..], |PREFIX|, |PREFIX| + |base|);
    assert name[..][..|PREFIX|] == old@Prefixed(name[..][..|PREFIX|]);
  }

  /** The first dot after the prefix, which has none, ends the name. */
  method TrimExtensions(name: array<char>, ghost base: string)
    requires Named(name[..], base)
    modifies name
    ensures Named(name[..], Before(base, '.'))
  {
    ghost var b := name[..];
    NamedString(b, base);
    var found, extPos := StrChr(name, 0, '.');
    if found {
      TrimmedAt(b, base, extPos);
      name[extPos] := NUL;
      assert name[..] == b[extPos := NUL];
    } else {
      BeforeAfter(base, '.');
      assert '.' !in base;
    }
  }

  lemma TrimmedAt(b: seq<char>, base: string, pos: nat)
    requires Named(b, base) && pos < |b| && b[pos] == '.' && '.' !in b[..pos] && NUL !in b[..pos]
    ensures Named(b[pos := NUL], Before(base, '.'))
  {
    var p, end := |PREFIX|, |PREFIX| + |base|;
    assert forall k :: 0 <= k < pos ==> b[k] == b[..pos][k];
    assert forall k :: 0 <= k < p ==> b[k] == PREFIX[k];
    assert '.' !in PREFIX;
    assert base[..pos - p] == b[..pos][p..] && base[pos - p] == '.';
    CutAt(base, '.', pos - p);
  }

  /** The buffer with the name of the create function, mangled in place; nothing is truncated. */
  method CreateFunctionName(filename: cstring) returns (name: array<char>)
    requires |filename| < PATH_MAX_LENGTH
    ensures fresh(name) && Terminated(name[..], 0) && CStr(name[..], 0) == PREFIX + BaseName(filename)
  {
    hide Named, AfterLast, Undashed, Before;
    name := new char[|PREFIX| + 1 + PATH_MAX_LENGTH](_ => NUL);
    var namePos := NameStart(filename);
    var base: cstring := filename[namePos..];
    if "lib" <= base {
      base := base[3..];
    }
    JoinPrefix(name, base);
    TrimExtensions(name, base);
    FinishName(name, Before(base, '.'));
  }

  method FinishName(name: array<char>, ghost base: string)
    requires Named(name[..], base)
    modifies name
    ensures Terminated(name[..], 0) && CStr(name[..], 0) == PREFIX + Undashed(base)
  {
    ghost var end := |PREFIX| + |base|;
    assert name[|PREFIX|..end] == name[..][|PREFIX|..end] == base;
    label Named:
    ReplaceDashes(name, |PREFIX|, end);
    assert name[..][..|PREFIX|] == old@Named(name[..][..|PREFIX|]);
    assert name[..][|PREFIX|..end] == name[|PREFIX|..end];
    NamedString(name[..], Undashed(base));
  }

  // ---------- configuration strings ----------

  type Setting = (string, string)

  /** What the parsing loop passes to set_option, one after the other. */
  function Settings(options: string): seq<Setting>
    decreases |options|
  {
    if options == "" then [] else
      var (option, rest) := Cut(options, ',');
      [Cut(option, '=')] + Settings(rest)
  }

  lemma SettingsNext(options: string)
    ensures var (option, rest) := Cut(options, ',');
      Settings(options) == if options == "" then [] else [Cut(option, '=')] + Settings(rest)
  {
  }

  /** The parts of s between the delimiters: one more than there are delimiters. */
  function Split(s: string, delim: char): seq<string> {
    if s == "" then [""]
    else if s[0] == delim then [""] + Split(s[1..], delim)
    else
      var parts := Split(s[1..], delim);
      if parts == [] then [] else [[s[0]] + parts[0]] + parts[1..]
  }

  function WithoutTrailingEmpty(parts: seq<string>): seq<string> {
    if parts != [] && parts[|parts| - 1] == "" then parts[..|parts| - 1] else parts
  }

  function CutAll(parts: seq<string>): (settings: seq<Setting>)
    ensures |settings| == |parts|
    ensures forall i :: 0 <= i < |parts| ==> settings[i] == Cut(parts[i], '=')
  {
    if parts == [] then [] else [Cut(parts[0], '=')] + CutAll(parts[1..])
  }

  lemma {:induction false} SplitCut(s: string, delim: char)
    ensures Split(s, delim) ==
      if delim in s then [Before(s, delim)] + Split(After(s, delim), delim) else [s]
  {
    if s != "" && s[0] != delim {
      SplitCut(s[1..], delim);
      assert s == [s[0]] + s[1..];
    }
  }

  /** The loop sees the comma-separated parts, a trailing empty one dropped, each cut at its first '='. */
  lemma {:induction false} SettingsAreParts(options: string)
    ensures Settings(options) == CutAll(WithoutTrailingEmpty(Split(options, ',')))
    decreases |options|
  {
    if options != "" {
      hide Split, Before, After;
      var (option, rest) := Cut(options, ',');
      SplitCut(options, ',');
      BeforeAfter(options, ',');
      SettingsAreParts(rest);
      SplitNonEmpty(rest, ',');
      SplitCut(rest, ',');
      if ',' in options {
        assert WithoutTrailingEmpty(Split(options, ',')) == [option] + WithoutTrailingEmpty(Split(rest, ','));
      }
    }
  }

  lemma {:induction false} SplitNonEmpty(s: string, delim: char)
    ensures Split(s, delim) != []
  {
    SplitCut(s, delim);
  }

  /** An option as it is written: a name alone is short for one with an empty value. */
  datatype OptionText = NameAndValue(name: string, value: string) | NameOnly(name: string)

  function Text(option: OptionText): string {
    match option
    case NameAndValue(name, value) => name + "=" + value
    case NameOnly(name) => name
  }

  function Meaning(option: OptionText): Setting {
    match option
    case NameAndValue(name, value) => (name, value)
    case NameOnly(name) => (name, "")
  }

  function Meanings(options: seq<OptionText>): (settings: seq<Setting>)
    ensures |settings| == |options|
    ensures forall i :: 0 <= i < |options| ==> settings[i] == Meaning(options[i])
  {
    if options == [] then [] else [Meaning(options[0])] + Meanings(options[1..])
  }

  /** A configuration as it is written: the path and then the options. */
  function Written(path: string, options: seq<OptionText>): string
    decreases options
  {
    if options == [] then path else path + "," + Written(Text(options[0]), options[1..])
  }

  predicate Plain(option: OptionText) {
    && ',' !in option.name && '=' !in option.name
    && (option.NameAndValue? ==> ',' !in option.value)
  }

  /** The options that can be told from their text: an empty name alone is nothing at the end. */
  function Told(options: seq<OptionText>): seq<OptionText> {
    if options != [] && options[|options| - 1] == NameOnly("") then options[..|options| - 1] else options
  }

  lemma CutOnce(s: string, t: string, delim: char)
    requires delim !in s
    ensures Cut(s + [delim] + t, delim) == (s, t)
    ensures Cut(s, delim) == (s, "")
  {
    var whole := s + [delim] + t;
    assert whole[..|s|] == s && whole[|s|] == delim && whole[|s| + 1..] == t;
    CutAt(whole, delim, |s|);
    assert s[..|s|] == s;
    CutAt(s, delim, |s|);
  }

  /** Parsing inverts writing, with and without the shorthand: the path and exactly the options, in order. */
  lemma {:induction false} ParseWritten(path: string, options: seq<OptionText>)
    requires ',' !in path && forall i :: 0 <= i < |options| ==> Plain(options[i])
    ensures var (p, rest) := Cut(Written(path, options), ',');
      p == path && Settings(rest) == Meanings(Told(options))
    decreases |options|
  {
    hide Before, After, Settings, Meaning, Text;
    if options == [] {
      CutOnce(path, "", ',');
      SettingsNext("");
    } else {
      var rest := Written(Text(options[0]), options[1..]);
      CutOnce(path, rest, ',');
      TextMeans(options[0]);
      ParseWritten(Text(options[0]), options[1..]);
      SettingsNext(rest);
      if rest != "" {
        ToldNext(options);
      }
    }
  }

  /** Writing an option and cutting it at its first '=' gives its meaning. */
  lemma TextMeans(option: OptionText)
    requires Plain(option)
    ensures Cut(Text(option), '=') == Meaning(option) && ',' !in Text(option)
    ensures Text(option) == "" <==> option == NameOnly("")
  {
    hide Before, After;
    CutOnce(option.name, if option.NameAndValue? then option.value else "", '=');
  }

  lemma ToldNext(options: seq<OptionText>)
    requires options != [] && (|options| == 1 ==> options[0] != NameOnly(""))
    ensures Meanings(Told(options)) == [Meaning(options[0])] + Meanings(Told(options[1..]))
  {
    hide Meaning;
    assert Told(options)[1..] == Told(options[1..]);
  }
}
