/** `ValidateTF2Process`: is the host executable's file name, lower-cased
    and stripped of its directory, one that contains "tf2", "hl2" or
    "tf_win64"? */
module ProcessCheck {
  import opened Machine
  import opened Hex

  /** The size of the file-name buffer. */
  const MAX_PATH: int := 260

  predicate NoNul(s: string)
  {
    forall i :: 0 <= i < |s| ==> s[i] != '\0'
  }

  /** The characters `GetModuleFileNameA` stores in a MAX_PATH buffer: the
      path cut to MAX_PATH - 1 characters, to leave room for the terminator. */
  function Stored(path: string): (s: string)
    ensures |s| < MAX_PATH && |s| <= |path| && s == path[..|s|]
    ensures |path| < MAX_PATH ==> s == path
    ensures |path| >= MAX_PATH ==> |s| == MAX_PATH - 1
  {
    if |path| < MAX_PATH then path else path[..MAX_PATH - 1]
  }

  function LowerAll(s: string): (r: string)
    ensures |r| == |s| && forall i :: 0 <= i < |s| ==> r[i] == ToLowerAscii(s[i])
  {
    seq(|s|, i requires 0 <= i < |s| => ToLowerAscii(s[i]))
  }

  /** `strrchr(s, c)` as an index: the last position holding `c`. */
  function LastIndexOf(s: string, c: char): (r: Option<nat>)
    ensures r.None? <==> c !in s
    ensures r.Some? ==> r.value < |s| && s[r.value] == c && c !in s[r.value + 1..]
    decreases |s|
  {
    if s == [] then None
    else if s[|s| - 1] == c then Some(|s| - 1)
    else
      var r := LastIndexOf(s[..|s| - 1], c);
      assert s == s[..|s| - 1] + [s[|s| - 1]];
      if r.Some? then
        assert s[r.value + 1..] == s[..|s| - 1][r.value + 1..] + [s[|s| - 1]];
        r
      else r
  }

  /** The part after the last backslash, or all of it when there is none. */
  function Basename(s: string): string
  {
    match LastIndexOf(s, '\\')
    case None => s
    case Some(k) => s[k + 1..]
  }

  /** `needle` occurs in `s` starting at index `i`. */
  predicate OccursAt(s: string, needle: string, i: int)
  {
    0 <= i && i + |needle| <= |s| && s[i..i + |needle|] == needle
  }

  /** `strstr(s, needle) != nullptr`. */
  function HasSubstring(s: string, needle: string): (b: bool)
    ensures b <==> exists i :: OccursAt(s, needle, i)
  {
    SearchFrom(s, needle, 0)
  }

  /** Whether `needle` occurs in `s` at `from` or later. */
  function SearchFrom(s: string, needle: string, from: nat): (b: bool)
    ensures b <==> exists i :: from <= i && OccursAt(s, needle, i)
    decreases |s| - from
  {
    if from + |needle| > |s| then false
    else if s[from..from + |needle|] == needle then assert OccursAt(s, needle, from); true
    else SearchFrom(s, needle, from + 1)
  }

  predicate NamesTF2(filename: string)
  {
    HasSubstring(filename, "tf2") || HasSubstring(filename, "hl2") || HasSubstring(filename, "tf_win64")
  }

  /** What `ValidateTF2Process` returns for the path the OS reports. */
  predicate IsTF2Name(path: string)
  {
    |path| > 0 && NamesTF2(Basename(LowerAll(Stored(path))))
  }

  /** `GetModuleFileNameA(nullptr, buffer, MAX_PATH)`: stores the path,
      cut to fit, and a terminator; returns the number of characters stored,
      or MAX_PATH when the path was cut. */
  method GetModuleFileNameA(path: string, buffer: array<char>) returns (length: nat)
    requires buffer.Length == MAX_PATH
    modifies buffer
    ensures length == if |path| < MAX_PATH then |path| else MAX_PATH
    ensures buffer[..|Stored(path)|] == Stored(path) && buffer[|Stored(path)|] == '\0'
  {
    var s := Stored(path);
    for j := 0 to |s|
      invariant buffer[..j] == s[..j]
    {
      buffer[j] := s[j];
    }
    buffer[|s|] := '\0';
    length := if |path| < MAX_PATH then |path| else MAX_PATH;
  }

  /** The string a C routine sees in `s`: everything before the first NUL. */
  function CString(s: string): (r: string)
    ensures NoNul(r) && |r| <= |s| && r == s[..|r|]
    decreases |s|
  {
    if s == [] || s[0] == '\0' then [] else [s[0]] + CString(s[1..])
  }

  /** A buffer holding `t` and then a terminator is read as `t`. */
  lemma {:induction false} CStringOfTerminated(s: string, t: string)
    requires NoNul(t) && |t| < |s| && s[..|t|] == t && s[|t|] == '\0'
    ensures CString(s) == t
    decreases |t|
  {
    if t != [] {
      assert s[0] == t[0];
      CStringOfTerminated(s[1..], t[1..]);
    }
  }

  /** `ValidateTF2Process()`, with the path the OS reports for the host
      executable as input. A path never contains NUL. */
  method ValidateTF2Process(path: string) returns (isTF2: bool)
    requires NoNul(path)
    ensures isTF2 == IsTF2Name(path)
  {
    var processName := new char[MAX_PATH];
    var processNameLength := GetModuleFileNameA(path, processName);
    if processNameLength == 0 {
      return false;
    }
    ghost var stored := processName[..];
    var i := 0;
    while i < processNameLength
      invariant 0 <= i <= processNameLength <= MAX_PATH
      invariant forall j :: 0 <= j < i ==> processName[j] == ToLowerAscii(stored[j])
      invariant forall j :: i <= j < MAX_PATH ==> processName[j] == stored[j]
    {
      processName[i] := ToLowerAscii(processName[i]);
      i := i + 1;
    }
    LoweredBufferReads(path, stored, processName[..], processNameLength);
    var name := CString(processName[..]);
    var filename := match LastIndexOf(name, '\\')
      case None => name
      case Some(k) => name[k + 1..];
    isTF2 := HasSubstring(filename, "tf2") || HasSubstring(filename, "hl2") || HasSubstring(filename, "tf_win64");
  }

  /** After lower-casing the first `n` characters of the stored buffer, a C
      routine reads the lower-cased stored path. */
  lemma LoweredBufferReads(path: string, stored: string, lowered: string, n: nat)
    requires NoNul(path) && |stored| == MAX_PATH && |lowered| == MAX_PATH
    requires stored[..|Stored(path)|] == Stored(path) && stored[|Stored(path)|] == '\0'
    requires n == if |path| < MAX_PATH then |path| else MAX_PATH
    requires forall j :: 0 <= j < n ==> lowered[j] == ToLowerAscii(stored[j])
    requires forall j :: n <= j < MAX_PATH ==> lowered[j] == stored[j]
    ensures CString(lowered) == LowerAll(Stored(path))
  {
    var t := LowerAll(Stored(path));
    forall j | 0 <= j < |t|
      ensures lowered[j] == t[j]
    {
      assert stored[j] == Stored(path)[j];
    }
    assert lowered[..|t|] == t;
    forall j | 0 <= j < |t|
      ensures t[j] != '\0'
    {
      assert Stored(path)[j] == path[j];
    }
    CStringOfTerminated(lowered, t);
  }

  /** An empty path is rejected. */
  lemma EmptyPathRejected()
    ensures !IsTF2Name("")
  {
  }

  /** The check ignores letter case. */
  lemma {:induction false} CaseInsensitive(path: string)
    ensures IsTF2Name(path) == IsTF2Name(LowerAll(path))
  {
    var lowered := LowerAll(path);
    assert Stored(lowered) == LowerAll(Stored(path)) by {
      var a, b := Stored(lowered), LowerAll(Stored(path));
      assert |a| == |b|;
      forall j | 0 <= j < |a|
        ensures a[j] == b[j]
      {
        assert a[j] == lowered[j];
      }
    }
    assert LowerAll(LowerAll(Stored(path))) == LowerAll(Stored(path)) by {
      var s := Stored(path);
      forall j | 0 <= j < |s|
        ensures LowerAll(LowerAll(s))[j] == LowerAll(s)[j]
      {
        LowerIdempotent(s[j]);
      }
    }
  }

  lemma LowerIdempotent(c: char)
    ensures ToLowerAscii(ToLowerAscii(c)) == ToLowerAscii(c)
  {
  }

  /** Only the file name counts: a path made of a directory and a file name
      that fits the buffer is accepted exactly when the lower-cased file name
      contains one of the three names. */
  lemma DirectoryIgnored(dir: string, file: string)
    requires '\\' !in file
    requires |dir| + 1 + |file| < MAX_PATH
    ensures IsTF2Name(dir + "\\" + file) == NamesTF2(LowerAll(file))
  {
    var path := dir + "\\" + file;
    var lowered := LowerAll(dir) + "\\" + LowerAll(file);
    assert Stored(path) == path;
    LowerAllSplit(dir, '\\', file);
    LowerKeepsBackslashOut(file);
    LastIndexOfSplit(LowerAll(dir), '\\', LowerAll(file));
    assert lowered[|dir| + 1..] == LowerAll(file);
    assert Basename(LowerAll(path)) == LowerAll(file);
  }

  /** Lower-casing `a`, a character that has no case, and `b`. */
  lemma LowerAllSplit(a: string, c: char, b: string)
    requires ToLowerAscii(c) == c
    ensures LowerAll(a + [c] + b) == LowerAll(a) + [c] + LowerAll(b)
  {
  }

  lemma LowerAllConcat(a: string, b: string)
    ensures LowerAll(a + b) == LowerAll(a) + LowerAll(b)
  {
  }

  lemma LowerKeepsBackslashOut(s: string)
    requires '\\' !in s
    ensures '\\' !in LowerAll(s)
  {
    forall j | 0 <= j < |s|
      ensures LowerAll(s)[j] != '\\'
    {
      assert s[j] in s;
    }
  }

  /** The last `c` is the one followed only by other characters. */
  lemma LastIndexOfSplit(a: string, c: char, b: string)
    requires c !in b
    ensures LastIndexOf(a + [c] + b, c) == Some(|a|)
  {
    var s := a + [c] + b;
    assert s[|a|] == c;
    assert s[|a| + 1..] == b;
  }

  /** A needle whose first character is absent does not occur. */
  lemma FirstCharAbsent(s: string, needle: string)
    requires |needle| > 0 && needle[0] !in s
    ensures !HasSubstring(s, needle)
  {
  }

  /** A matching directory name does not count: a file `a.exe` is rejected
      whatever directory holds it. */
  lemma DirectoryNameNotMatched(dir: string)
    requires |dir| + 6 < MAX_PATH
    ensures !IsTF2Name(dir + "\\a.exe")
  {
    var file := "a.exe";
    assert dir + "\\a.exe" == dir + "\\" + file;
    assert LowerAll(file) == file;
    assert !NamesTF2(file) by {
      FirstCharAbsent(file, "tf2");
      FirstCharAbsent(file, "hl2");
      FirstCharAbsent(file, "tf_win64");
    }
    DirectoryIgnored(dir, file);
  }

  /** The names are matched as substrings of the file name and in any letter
      case: `<dir>\\<prefix><name><suffix>` is accepted whenever `name`
      lower-cases to one of the three. */
  lemma NameMatchedAsSubstring(dir: string, prefix: string, name: string, suffix: string)
    requires LowerAll(name) in {"tf2", "hl2", "tf_win64"}
    requires '\\' !in prefix && '\\' !in suffix
    requires |dir| + 1 + |prefix| + |name| + |suffix| < MAX_PATH
    ensures IsTF2Name(dir + "\\" + prefix + name + suffix)
  {
    var file := prefix + name + suffix;
    assert dir + "\\" + prefix + name + suffix == dir + "\\" + file;
    DirectoryIgnored(dir, file);
    LowerAllConcat(prefix + name, suffix);
    LowerAllConcat(prefix, name);
    var lowered := LowerAll(prefix) + LowerAll(name) + LowerAll(suffix);
    assert lowered[|prefix|..|prefix| + |name|] == LowerAll(name);
    assert OccursAt(lowered, LowerAll(name), |prefix|);
  }
}
