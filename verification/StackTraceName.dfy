/** The choice of a log file name (_GetStackTraceName in pxr/base/arch/stackTrace.cpp). */
module StackTraceName {

  import opened CStrings
  import opened Decimals

  const PREFIX: string := "st"

  const ENOMEM: int := 12
  const EEXIST: int := 17
  const INT_MAX: int := 0x7fff_ffff

  // ---------------------------------------------------------------- names

  /** The k-th name to try. */
  function Name(base: string, k: nat): string {
    if k == 0 then base else base + "." + Decimal(k)
  }

  lemma NameLength(base: string, k: nat)
    ensures |Name(base, k)| == |base| + if k == 0 then 0 else 1 + |Decimal(k)|
  {
  }

  /** No name is tried twice. */
  lemma NamesDiffer(base: string, j: nat, k: nat)
    requires j != k
    ensures Name(base, j) != Name(base, k)
  {
    ParsesBack(j);
    ParsesBack(k);
    if j > 0 && k > 0 {
      assert Name(base, j)[|base| + 1..] == Decimal(j);
      assert Name(base, k)[|base| + 1..] == Decimal(k);
    } else {
      NameLength(base, j);
      NameLength(base, k);
    }
  }

  /** Finitely many files cannot have all the names. */
  lemma {:induction false} ManyNames(base: string, n: nat, files: set<string>)
    requires forall k | 0 <= k < n :: Name(base, k) in files
    ensures n <= |files|
  {
    if n > 0 {
      var last := Name(base, n - 1);
      forall k | 0 <= k < n - 1 ensures Name(base, k) in files - {last} {
        NamesDiffer(base, k, n - 1);
      }
      ManyNames(base, n - 1, files - {last});
    }
  }

  // ---------------------------------------------------------------- the file system

  /** The files there are, and the names under which none can be made, with the reason. */
  class FileSystem {
    var files: set<string>
    const faults: map<string, int>
    var errno: int

    constructor (files: set<string>, faults: map<string, int>)
      ensures this.files == files && this.faults == faults && errno == 0
    {
      this.files, this.faults, errno := files, faults, 0;
    }

    /** The reasons are not that the file exists. */
    predicate Valid()
      reads this
    {
      forall name | name in faults :: faults[name] != EEXIST
    }

    /** open(2) with O_CREAT and O_EXCL. */
    method Create(name: string) returns (fd: int)
      requires Valid()
      modifies this
      ensures Valid() && fd >= -1
      ensures name in old(files) ==> fd == -1 && errno == EEXIST && files == old(files)
      ensures name !in old(files) && name in faults ==> fd == -1 && errno == faults[name] && files == old(files)
      ensures name !in old(files) && name !in faults ==> fd >= 0 && errno == old(errno) && files == old(files) + {name}
    {
      if name in files {
        fd, errno := -1, EEXIST;
      } else if name in faults {
        fd, errno := -1, faults[name];
      } else {
        fd, files := 3, files + {name};
      }
    }
  }

  // ---------------------------------------------------------------- filling the buffer

  /** The buffer shows this text from this place on. */
  ghost predicate Shows(buf: array<char>, at: nat, s: string)
    reads buf
  {
    at + |s| < buf.Length && buf[at + |s|] == '\0' && forall i | at <= i < at + |s| :: buf[i] == s[i - at]
  }

  /** asstrcpy: copies up to and with the NUL, and gives back the NUL's place. */
  method AsStrCpy(buf: array<char>, at: nat, src: string) returns (end: nat)
    requires at + |CStr(src)| < buf.Length
    modifies buf
    ensures end == at + |CStr(src)| && Shows(buf, at, CStr(src))
    ensures forall i | 0 <= i < buf.Length && !(at <= i <= end) :: buf[i] == old(buf[i])
  {
    ghost var text := CStr(src);
    CStrEnds(src);
    CStrHasNoNul(src);
    end := at;
    var i := 0;
    while i < |src| && src[i] != '\0'
      invariant i <= |text| && end == at + i
      invariant forall j | at <= j < end :: buf[j] == text[j - at]
      invariant forall j | 0 <= j < buf.Length && !(at <= j <= end) :: buf[j] == old(buf[j])
    {
      assert i < |text|;
      buf[end] := src[i];
      end := end + 1;
      i := i + 1;
    }
    buf[end] := '\0';
  }

  lemma Joined(buf: array<char>, s: string, t: string)
    requires Shows(buf, |s|, t) && forall i | 0 <= i < |s| :: buf[i] == s[i]
    ensures Shows(buf, 0, s + t)
  {
  }

  /** A copy to the place of the NUL, after what the buffer shows already. */
  method Append(buf: array<char>, end: nat, src: string, ghost shown: string) returns (after: nat)
    requires Shows(buf, 0, shown) && end == |shown| && end + |CStr(src)| < buf.Length
    modifies buf
    ensures Shows(buf, 0, shown + CStr(src)) && after == |shown + CStr(src)|
    ensures forall i | after < i < buf.Length :: buf[i] == old(buf[i])
  {
    after := AsStrCpy(buf, end, src);
    Joined(buf, shown, CStr(src));
  }

  method AppendNumber(buf: array<char>, end: nat, x: Long, ghost shown: string) returns (after: nat)
    requires Shows(buf, 0, shown) && end == |shown| && end + |Decimal(x)| < buf.Length
    modifies buf
    ensures Shows(buf, 0, shown + Decimal(x)) && after == |shown + Decimal(x)|
    ensures forall i | after < i < buf.Length :: buf[i] == old(buf[i])
  {
    after := AsItoa(buf, end, x);
    Joined(buf, shown, Decimal(x));
  }

  /** The default name: a log for this program and process, in the directory for temporary files. */
  function Base(dir: string, program: string, pid: int): string {
    CStr(dir) + "/" + PREFIX + "_" + CStr(program) + "." + Decimal(pid)
  }

  lemma PlainCStr()
    ensures CStr("/") == "/" && CStr(PREFIX) == PREFIX && CStr("_") == "_" && CStr(".") == "."
  {
    CStrIs("/", 1);
    CStrIs(PREFIX, 2);
    CStrIs("_", 1);
    CStrIs(".", 1);
  }

  /** The seven copies of the default name. */
  method FillBase(buf: array<char>, dir: string, program: string, pid: Long) returns (end: nat)
    requires |Base(dir, program, pid)| < buf.Length
    modifies buf
    ensures Shows(buf, 0, Base(dir, program, pid)) && end == |Base(dir, program, pid)|
    ensures forall i | end < i < buf.Length :: buf[i] == old(buf[i])
  {
    PlainCStr();
    end := AsStrCpy(buf, 0, dir);
    end := Append(buf, end, "/", CStr(dir));
    end := Append(buf, end, PREFIX, CStr(dir) + "/");
    end := Append(buf, end, "_", CStr(dir) + "/" + PREFIX);
    end := Append(buf, end, program, CStr(dir) + "/" + PREFIX + "_");
    end := Append(buf, end, ".", CStr(dir) + "/" + PREFIX + "_" + CStr(program));
    end := AppendNumber(buf, end, pid, CStr(dir) + "/" + PREFIX + "_" + CStr(program) + ".");
  }

  /** The room that the default name takes with its NUL. */
  method Required(dir: string, program: string, pid: Long) returns (n: nat)
    ensures n == |Base(dir, program, pid)| + 1
  {
    var dirLen := AsStrLen(dir);
    var prefixLen := AsStrLen(PREFIX);
    var programLen := AsStrLen(program);
    var digits := AsNumDigits(pid);
    PlainCStr();
    n := dirLen + 1 + prefixLen + 1 + programLen + 1 + digits + 1;
  }

  /** A dot and the suffix over whatever followed the default name. */
  method FillSuffix(buf: array<char>, end: nat, suffix: Long, ghost base: string)
    requires suffix > 0 && end == |base| && |Name(base, suffix)| < buf.Length
    requires forall i | 0 <= i < end :: buf[i] == base[i]
    modifies buf
    ensures Shows(buf, 0, Name(base, suffix))
    ensures forall i | |Name(base, suffix)| < i < buf.Length :: buf[i] == old(buf[i])
  {
    PlainCStr();
    var dot := AsStrCpy(buf, end, ".");
    var after := AsItoa(buf, end + 1, suffix);
  }

  /** What the kernel reads from a buffer. */
  lemma ReadsName(buf: array<char>, s: string)
    requires Shows(buf, 0, s) && '\0' !in s
    ensures CStr(buf[..]) == s
  {
    CStrIs(buf[..], |s|);
    assert buf[..][..|s|] == s;
  }

  lemma BaseHasNoNul(dir: string, program: string, pid: int)
    ensures '\0' !in Base(dir, program, pid)
  {
    CStrHasNoNul(dir);
    CStrHasNoNul(program);
    ParsesBack(pid);
  }

  /** The names that are tried, in full. */
  lemma NameIs(dir: string, program: string, pid: int, k: nat)
    ensures Name(Base(dir, program, pid), k)
         == CStr(dir) + "/st_" + CStr(program) + "." + Decimal(pid) + if k == 0 then "" else "." + Decimal(k)
  {
    assert "/st_" == "/" + PREFIX + "_";
    PrefixFits(CStr(dir), "/", PREFIX, "_");
    Regrouped(CStr(dir) + "/st_" + CStr(program) + "." + Decimal(pid), ".", Decimal(k));
  }

  lemma PrefixFits(a: string, b: string, c: string, d: string)
    ensures a + (b + c + d) == a + b + c + d
  {
  }

  lemma Regrouped(a: string, b: string, c: string)
    ensures a + (b + c) == a + b + c && a + "" == a
  {
  }

  // ---------------------------------------------------------------- the search

  /** These names are taken. */
  ghost predicate Tried(base: string, n: nat, files: set<string>) {
    forall k | 0 <= k < n :: Name(base, k) in files
  }

  /** The kernel's answer to one name. */
  ghost predicate Answer(fd: int, name: string, before: set<string>, after: set<string>,
                         faults: map<string, int>, errno: int) {
    if name in before then fd == -1 && errno == EEXIST && after == before
    else if name in faults then fd == -1 && errno == faults[name] != EEXIST && after == before
    else fd >= 0 && after == before + {name}
  }

  /** How a search that stops at this name ends. */
  ghost predicate Outcome(fd: int, name: string, len: nat, before: set<string>, after: set<string>,
                          faults: map<string, int>, errno: int) {
    if |name| >= len then fd == -1 && errno == ENOMEM && after == before
    else if name in faults then fd == -1 && name !in before && errno == faults[name] && after == before
    else fd == 0 && name !in before && after == before + {name}
  }

  /** open(2) on the name in the buffer. */
  method Open(fs: FileSystem, buf: array<char>, ghost base: string, ghost k: nat) returns (fd: int)
    requires fs.Valid() && Shows(buf, 0, Name(base, k)) && '\0' !in base
    modifies fs
    ensures fs.Valid() && Answer(fd, Name(base, k), old(fs.files), fs.files, fs.faults, fs.errno)
  {
    ParsesBack(k);
    ReadsName(buf, Name(base, k));
    fd := fs.Create(CStr(buf[..]));
  }

  /** The loop over suffixes, from the answer to the default name on. */
  method Search(fs: FileSystem, buf: array<char>, len: nat, required: nat, end: nat, fd0: int,
                ghost base: string, ghost before: set<string>)
    returns (fd: int, tries: nat)
    requires fs.Valid() && len <= buf.Length && |before| < INT_MAX && '\0' !in base
    requires Shows(buf, 0, base) && |base| == end < required == |base| + 1 <= len
    requires Answer(fd0, base, before, fs.files, fs.faults, fs.errno)
    modifies fs, buf
    ensures Tried(base, tries, before)
    ensures Outcome(fd, Name(base, tries), len, before, fs.files, fs.faults, fs.errno)
    ensures fd == 0 ==> Shows(buf, 0, Name(base, tries))
    ensures forall i | len <= i < buf.Length :: buf[i] == old(buf[i])
  {
    fd := fd0;
    var suffix := 0;
    while fd == -1 && fs.errno == EEXIST
      invariant Tried(base, suffix, before) && suffix <= |before|
      invariant fs.Valid() && Shows(buf, 0, Name(base, suffix)) && |Name(base, suffix)| < len
      invariant Answer(fd, Name(base, suffix), before, fs.files, fs.faults, fs.errno)
      invariant forall i | len <= i < buf.Length :: buf[i] == old(buf[i])
      decreases |before| - suffix
    {
      ManyNames(base, suffix + 1, before);
      NameStarts(base, suffix);
      suffix := suffix + 1;
      NameLength(base, suffix);
      var digits := AsNumDigits(suffix);
      if len < required + 1 + digits {
        fs.errno := ENOMEM;
        return -1, suffix;
      }
      FillSuffix(buf, end, suffix, base);
      fd := Open(fs, buf, base, suffix);
    }
    if fd != -1 {
      fd := 0;
    }
    tries := suffix;
  }

  lemma NameStarts(base: string, k: nat)
    ensures |base| <= |Name(base, k)| && forall i | 0 <= i < |base| :: Name(base, k)[i] == base[i]
  {
  }

  /**
   _GetStackTraceName: makes an empty file under the first name that is not taken, and leaves
   that name in the buffer; or runs out of room first, or into another error.  It always ends,
   and writes nothing from len on.
   */
  method GetStackTraceName(fs: FileSystem, buf: array<char>, len: nat, dir: string, program: string, pid: Long)
    returns (fd: int, ghost tries: nat)
    requires fs.Valid() && len <= buf.Length && |fs.files| < INT_MAX
    modifies fs, buf
    ensures Tried(Base(dir, program, pid), tries, old(fs.files))
    ensures Outcome(fd, Name(Base(dir, program, pid), tries), len, old(fs.files), fs.files, fs.faults, fs.errno)
    ensures fd == 0 ==> Shows(buf, 0, Name(Base(dir, program, pid), tries))
    ensures forall i | len <= i < buf.Length :: buf[i] == old(buf[i])
  {
    var required := Required(dir, program, pid);
    if len < required {
      fs.errno := ENOMEM;
      return -1, 0;
    }
    var end := FillBase(buf, dir, program, pid);
    BaseHasNoNul(dir, program, pid);
    ghost var before := fs.files;
    fd := Open(fs, buf, Base(dir, program, pid), 0);
    fd, tries := Search(fs, buf, len, required, end, fd, Base(dir, program, pid), before);
  }
}
