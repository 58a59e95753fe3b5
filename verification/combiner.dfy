/**
 The module combiner (combine-modules.js): reads a fixed, dependency-ordered
 list of Apps Script modules and writes them as one file, a generated header
 first and then one banner-framed section per module with the module's text
 copied verbatim.

 The output format is the pure function `Combine`; `CombineModules` is the
 run against a file system: all reads in order, stopping at the first that
 fails, and the single write only once every read has succeeded.
 */
module Combiner {
  import opened Wrappers
  import opened Paths
  import opened FileSystem

  /** The modules in the order their definitions must appear. */
  const ModuleOrder: seq<Path> := [
    "src/config/config.gs",
    "src/core/utilities.gs",
    "src/core/protection.gs",
    "src/core/menu.gs",
    "src/sheets/basic/instructions.gs",
    "src/sheets/basic/dataTables.gs",
    "src/sheets/basic/tripSettings.gs",
    "src/sheets/basic/lodging.gs",
    "src/sheets/advanced/transportation.gs",
    "src/sheets/advanced/activities.gs",
    "src/sheets/advanced/dashboard.gs",
    "src/main.gs"
  ]

  /** `c.repeat(n)`. */
  function Repeat(c: char, n: nat): (s: string)
    ensures |s| == n
    ensures forall i :: 0 <= i < n ==> s[i] == c
  {
    seq(n, i => c)
  }

  /** The fixed text of the generated file: the header text before and after
      the generation timestamp, and the body of the two separator lines that
      frame every module's name. */
  datatype Layout = Layout(lead: string, tail: string, rule: string)

  /** The layout combine-modules.js writes to `Code.gs`. */
  const CodeGs: Layout := Layout(
    "/**\n * Code.gs\n * Combined Google Apps Script modules for Travel Budget Planner\n * Generated on: ",
    "\n */\n\n",
    Repeat('=', 80))

  /** The header: the timestamp sits between the fixed lead and tail. */
  function Header(L: Layout, timestamp: string): (h: string)
    ensures |h| == |L.lead| + |timestamp| + |L.tail|
    ensures L.lead <= h
  {
    L.lead + timestamp + L.tail
  }

  /** The three comment lines and the blank line that open a module's section. */
  function Banner(L: Layout, path: Path): (b: string)
    ensures |b| == 2 * |L.rule| + 22 + |Basename(path)|
  {
    "\n// " + L.rule + "\n" + "// Module: " + Basename(path) + "\n" + "// " + L.rule + "\n\n"
  }

  /** A module as read: its path in the order list and its text. */
  datatype Module = Module(path: Path, content: string)

  /** A module's section: its banner, its text and one newline. */
  function Section(L: Layout, m: Module): (s: string)
    ensures |s| == SectionSize(L, m)
    ensures Banner(L, m.path) <= s && s[|s| - 1] == '\n'
  {
    Banner(L, m.path) + m.content + "\n"
  }

  /** The sections of `ms`, in order. */
  function Sections(L: Layout, ms: seq<Module>): (s: string)
    ensures |s| == TotalSize(L, ms)
    decreases |ms|
  {
    if ms == [] then "" else Sections(L, ms[..|ms| - 1]) + Section(L, ms[|ms| - 1])
  }

  /** The whole generated file. */
  function Combine(L: Layout, timestamp: string, ms: seq<Module>): (r: string)
    ensures Header(L, timestamp) <= r
    ensures |r| == |Header(L, timestamp)| + TotalSize(L, ms)
  {
    Header(L, timestamp) + Sections(L, ms)
  }

  /** The length of one section: two separator lines, the fixed 22 characters
      of the banner, the basename, the text and the trailing newline. */
  function SectionSize(L: Layout, m: Module): nat {
    2 * |L.rule| + 22 + |Basename(m.path)| + |m.content| + 1
  }

  function TotalSize(L: Layout, ms: seq<Module>): nat
    decreases |ms|
  {
    if ms == [] then 0 else TotalSize(L, ms[..|ms| - 1]) + SectionSize(L, ms[|ms| - 1])
  }

  /** The `Code.gs` header is 97 characters before the timestamp and 6 after
      it, and its separators are eighty '=' characters, so every banner is
      182 characters plus the basename. */
  lemma CodeGsSizes()
    ensures |CodeGs.lead| == 97 && |CodeGs.tail| == 6
    ensures |CodeGs.rule| == 80 && forall i :: 0 <= i < 80 ==> CodeGs.rule[i] == '='
    ensures forall p :: |Banner(CodeGs, p)| == 182 + |Basename(p)|
  {
  }

  // ---------------------------------------------------------------------------
  // Sequence facts, proved once for arbitrary sequences so that the lemmas
  // below never reason about the literal text of the header and banners.
  // ---------------------------------------------------------------------------

  lemma AppendAssoc<T>(a: seq<T>, b: seq<T>, c: seq<T>)
    ensures (a + b) + c == a + (b + c)
  {
  }

  /** The middle piece of `x + y + z` is the slice from `|x|` to `|x| + |y|`. */
  lemma SliceAt<T>(s: seq<T>, x: seq<T>, y: seq<T>, z: seq<T>, lo: int, hi: int)
    requires s == x + y + z && lo == |x| && hi == lo + |y|
    ensures 0 <= lo <= hi <= |s|
    ensures s[lo..hi] == y
  {
  }

  /** A slice of the middle piece of `x + y + z`, found in the whole. */
  lemma PieceAt<T>(s: seq<T>, x: seq<T>, y: seq<T>, z: seq<T>, a: int, b: int)
    requires s == x + y + z && 0 <= a <= b <= |y|
    ensures |x| + b <= |s|
    ensures s[|x| + a..|x| + b] == y[a..b]
  {
    var u, v := s[|x| + a..|x| + b], y[a..b];
    forall k | 0 <= k < |u|
      ensures u[k] == v[k]
    {
      assert u[k] == y[a + k];
    }
  }

  /** The three pieces of `x + y + z` at their offsets. */
  lemma ThreePieces<T>(s: seq<T>, x: seq<T>, y: seq<T>, z: seq<T>)
    requires s == x + y + z
    ensures |s| == |x| + |y| + |z|
    ensures s[0..|x|] == x && s[|x|..|x| + |y|] == y && s[|x| + |y|..] == z
  {
  }

  /** Replacing the middle piece of `x + y + z` leaves the pieces around it
      where they were, relative to the start and to the end. */
  lemma SwapMiddle<T>(x: seq<T>, y1: seq<T>, y2: seq<T>, z: seq<T>)
    ensures |x + y1 + z| - |y1| == |x + y2 + z| - |y2|
    ensures (x + y1 + z)[0..|x|] == (x + y2 + z)[0..|x|]
    ensures (x + y1 + z)[|x| + |y1|..] == (x + y2 + z)[|x| + |y2|..]
    ensures |y1| == |y2| ==> forall k :: 0 <= k < |x + y1 + z| && !(|x| <= k < |x| + |y1|) ==>
      (x + y1 + z)[k] == (x + y2 + z)[k]
  {
    ThreePieces(x + y1 + z, x, y1, z);
    ThreePieces(x + y2 + z, x, y2, z);
  }

  // ---------------------------------------------------------------------------
  // The output format
  // ---------------------------------------------------------------------------

  /** The header is the lead, the timestamp right after it, and the tail. */
  lemma HeaderLayout(L: Layout, timestamp: string)
    ensures Header(L, timestamp)[0..|L.lead|] == L.lead
    ensures Header(L, timestamp)[|L.lead|..|L.lead| + |timestamp|] == timestamp
    ensures Header(L, timestamp)[|L.lead| + |timestamp|..|Header(L, timestamp)|] == L.tail
  {
    var h, n, t := Header(L, timestamp), |L.lead|, |timestamp|;
    SliceAt(h, [], L.lead, timestamp + L.tail, 0, n);
    SliceAt(h, L.lead, timestamp, L.tail, n, n + t);
    SliceAt(h, L.lead + timestamp, L.tail, [], n + t, |h|);
  }

  /** A section is its banner, the module's text, and one newline. */
  lemma SectionLayout(L: Layout, m: Module)
    ensures Section(L, m)[0..|Banner(L, m.path)|] == Banner(L, m.path)
    ensures Section(L, m)[|Banner(L, m.path)|..|Banner(L, m.path)| + |m.content|] == m.content
    ensures Section(L, m)[|Section(L, m)| - 1] == '\n'
  {
    var b, c, sec := Banner(L, m.path), m.content, Section(L, m);
    AppendAssoc(b, c, "\n");
    SliceAt(sec, [], b, c + "\n", 0, |b|);
    SliceAt(sec, b, c, "\n", |b|, |b| + |c|);
  }

  /** The sections of a concatenation are the concatenation of the sections. */
  lemma {:induction false} SectionsAppend(L: Layout, a: seq<Module>, b: seq<Module>)
    ensures Sections(L, a + b) == Sections(L, a) + Sections(L, b)
    decreases |b|
  {
    if b == [] {
      assert a + b == a;
    } else {
      var b', last := b[..|b| - 1], b[|b| - 1];
      assert (a + b)[..|a + b| - 1] == a + b';
      assert (a + b)[|a + b| - 1] == last;
      SectionsAppend(L, a, b');
      AppendAssoc(Sections(L, a), Sections(L, b'), Section(L, last));
    }
  }

  /** Appending a module to the input appends its section to the output. */
  lemma CombineAppend(L: Layout, timestamp: string, ms: seq<Module>, m: Module)
    ensures Combine(L, timestamp, ms + [m]) == Combine(L, timestamp, ms) + Section(L, m)
  {
    assert (ms + [m])[..|ms|] == ms;
    AppendAssoc(Header(L, timestamp), Sections(L, ms), Section(L, m));
  }

  /** The output length is the header length plus, for every module, its
      banner, its text and one newline. */
  lemma {:induction false} CombineLength(L: Layout, timestamp: string, ms: seq<Module>)
    ensures |Combine(L, timestamp, ms)| == |L.lead| + |timestamp| + |L.tail| + TotalSize(L, ms)
    decreases |ms|
  {
    if ms != [] {
      CombineLength(L, timestamp, ms[..|ms| - 1]);
      SectionLayout(L, ms[|ms| - 1]);
    }
  }

  /** The output starts with the header: the lead, the timestamp and the tail. */
  lemma CombineStartsWithHeader(L: Layout, timestamp: string, ms: seq<Module>)
    ensures Header(L, timestamp) <= Combine(L, timestamp, ms)
    ensures Combine(L, timestamp, ms)[0..|L.lead|] == L.lead
    ensures Combine(L, timestamp, ms)[|L.lead|..|L.lead| + |timestamp|] == timestamp
    ensures Combine(L, timestamp, ms)[|L.lead| + |timestamp|..|Header(L, timestamp)|] == L.tail
  {
    var c, h, rest := Combine(L, timestamp, ms), Header(L, timestamp), Sections(L, ms);
    ThreePieces(c, [], h, rest);
    ThreePieces(c, L.lead + timestamp, L.tail, rest);
    assert c == L.lead + timestamp + (L.tail + rest) by {
      AppendAssoc(L.lead + timestamp, L.tail, rest);
    }
    ThreePieces(c, L.lead, timestamp, L.tail + rest);
  }

  /** Where module `i`'s section starts in the output. */
  function SectionStart(L: Layout, timestamp: string, ms: seq<Module>, i: nat): nat
    requires i <= |ms|
  {
    |Header(L, timestamp)| + |Sections(L, ms[..i])|
  }

  /** The output between the starts of sections `i` and `i + 1` is exactly
      module `i`'s section: its banner naming the basename, its text verbatim,
      and a newline. */
  lemma CombineEmbedsSection(L: Layout, timestamp: string, ms: seq<Module>, i: nat)
    requires i < |ms|
    ensures SectionStart(L, timestamp, ms, i) + SectionSize(L, ms[i]) == SectionStart(L, timestamp, ms, i + 1)
    ensures SectionStart(L, timestamp, ms, i + 1) <= |Combine(L, timestamp, ms)|
    ensures Combine(L, timestamp, ms)[SectionStart(L, timestamp, ms, i)..SectionStart(L, timestamp, ms, i + 1)]
            == Section(L, ms[i])
  {
    CombineAround(L, timestamp, ms, i);
    SectionLayout(L, ms[i]);
    var h, p, sec, q := Header(L, timestamp), Sections(L, ms[..i]), Section(L, ms[i]), Sections(L, ms[i + 1..]);
    SliceAt(Combine(L, timestamp, ms), h + p, sec, q, SectionStart(L, timestamp, ms, i), SectionStart(L, timestamp, ms, i + 1));
  }

  /** Reading the output back past module `i`'s banner recovers the module's
      text exactly. */
  lemma CombineEmbedsVerbatim(L: Layout, timestamp: string, ms: seq<Module>, i: nat)
    requires i < |ms|
    ensures SectionStart(L, timestamp, ms, i) + |Banner(L, ms[i].path)| + |ms[i].content|
            <= |Combine(L, timestamp, ms)|
    ensures Combine(L, timestamp, ms)[SectionStart(L, timestamp, ms, i) + |Banner(L, ms[i].path)|..
                                      SectionStart(L, timestamp, ms, i) + |Banner(L, ms[i].path)| + |ms[i].content|]
            == ms[i].content
  {
    var whole, sec, c := Combine(L, timestamp, ms), Section(L, ms[i]), ms[i].content;
    var before, after := Header(L, timestamp) + Sections(L, ms[..i]), Sections(L, ms[i + 1..]);
    var b := |Banner(L, ms[i].path)|;
    assert whole == before + sec + after by {
      CombineAround(L, timestamp, ms, i);
    }
    assert b + |c| <= |sec| && sec[b..b + |c|] == c by {
      SectionLayout(L, ms[i]);
    }
    PieceAt(whole, before, sec, after, b, b + |c|);
  }

  /** The output split around module `i`'s section. */
  lemma CombineAround(L: Layout, timestamp: string, ms: seq<Module>, i: nat)
    requires i < |ms|
    ensures Sections(L, ms[..i + 1]) == Sections(L, ms[..i]) + Section(L, ms[i])
    ensures Combine(L, timestamp, ms)
            == (Header(L, timestamp) + Sections(L, ms[..i])) + Section(L, ms[i]) + Sections(L, ms[i + 1..])
  {
    var pre, m, post := ms[..i], ms[i], ms[i + 1..];
    assert ms[..i + 1] == pre + [m];
    assert ms == ms[..i + 1] + post;
    assert [m][..0] == [];
    SectionsAppend(L, pre, [m]);
    SectionsAppend(L, ms[..i + 1], post);
    var h, p, sec, q := Header(L, timestamp), Sections(L, pre), Section(L, m), Sections(L, post);
    AppendAssoc(h, p + sec, q);
    AppendAssoc(h, p, sec);
  }

  /** Sections come out in input order: module `i`'s section ends before
      module `j`'s starts whenever `i < j`. */
  lemma {:induction false} SectionsInOrder(L: Layout, timestamp: string, ms: seq<Module>, i: nat, j: nat)
    requires i < j <= |ms|
    ensures SectionStart(L, timestamp, ms, i) + SectionSize(L, ms[i]) <= SectionStart(L, timestamp, ms, j)
    decreases j - i
  {
    CombineEmbedsSection(L, timestamp, ms, i);
    if i + 1 < j {
      SectionsInOrder(L, timestamp, ms, i + 1, j);
      CombineEmbedsSection(L, timestamp, ms, i + 1);
    }
  }

  /** Two runs over the same modules differ only inside the timestamp: the
      lead before it and everything after it are identical. */
  lemma TimestampIsOnlyDifference(L: Layout, t1: string, t2: string, ms: seq<Module>)
    ensures |Combine(L, t1, ms)| - |t1| == |Combine(L, t2, ms)| - |t2|
    ensures Combine(L, t1, ms)[0..|L.lead|] == Combine(L, t2, ms)[0..|L.lead|]
    ensures Combine(L, t1, ms)[|L.lead| + |t1|..] == Combine(L, t2, ms)[|L.lead| + |t2|..]
    ensures |t1| == |t2| ==> forall k :: 0 <= k < |Combine(L, t1, ms)| && !(|L.lead| <= k < |L.lead| + |t1|) ==>
      Combine(L, t1, ms)[k] == Combine(L, t2, ms)[k]
  {
    var rest := L.tail + Sections(L, ms);
    assert Combine(L, t1, ms) == L.lead + t1 + rest by {
      AppendAssoc(L.lead + t1, L.tail, Sections(L, ms));
    }
    assert Combine(L, t2, ms) == L.lead + t2 + rest by {
      AppendAssoc(L.lead + t2, L.tail, Sections(L, ms));
    }
    SwapMiddle(L.lead, t1, t2, rest);
  }

  /** For `Code.gs`: the timestamp starts at offset 97, right after the fixed
      lead, and the file is 103 characters plus the timestamp plus, for each
      module, 183 characters plus its basename and its text. */
  lemma CodeGsOutput(timestamp: string, ms: seq<Module>)
    ensures |Combine(CodeGs, timestamp, ms)| == 103 + |timestamp| + TotalSize(CodeGs, ms)
    ensures Combine(CodeGs, timestamp, ms)[..97] == CodeGs.lead
    ensures Combine(CodeGs, timestamp, ms)[97..97 + |timestamp|] == timestamp
    ensures forall i :: 0 <= i < |ms| ==> SectionSize(CodeGs, ms[i]) == 183 + |Basename(ms[i].path)| + |ms[i].content|
  {
    CodeGsSizes();
    CombineLength(CodeGs, timestamp, ms);
    CombineStartsWithHeader(CodeGs, timestamp, ms);
  }

  /** The module order list has no repeated path and ends with the entry
      point, which must come last. */
  lemma ModuleOrderWellFormed()
    ensures |ModuleOrder| == 12
    ensures forall i, j :: 0 <= i < j < |ModuleOrder| ==> ModuleOrder[i] != ModuleOrder[j]
    ensures ModuleOrder[|ModuleOrder| - 1] == "src/main.gs"
  {
  }

  // ---------------------------------------------------------------------------
  // The run
  // ---------------------------------------------------------------------------

  /** A file access of the run, in the order it happens. */
  datatype Access = ReadAccess(path: Path) | WriteAccess(path: Path)

  /** What makes the process exit with status 1. */
  datatype CombineError =
    | ReadError(path: Path, cause: IoError)
    | WriteError(path: Path, cause: IoError)

  function ReadsOf(paths: seq<Path>): (t: seq<Access>)
    ensures |t| == |paths|
    ensures forall i :: 0 <= i < |paths| ==> t[i] == ReadAccess(paths[i])
  {
    seq(|paths|, i requires 0 <= i < |paths| => ReadAccess(paths[i]))
  }

  /** `readFileSync` succeeds on `p`. */
  predicate Readable(fs: FileSystem, p: Path) {
    p in fs.files && !Fails(fs, ReadOp, p)
  }

  /** The index of the first module that cannot be read, or `|paths|` when
      every one can. */
  function FirstUnreadable(fs: FileSystem, paths: seq<Path>): (i: nat)
    ensures i <= |paths|
    ensures forall j :: 0 <= j < i ==> Readable(fs, paths[j])
    ensures i < |paths| ==> !Readable(fs, paths[i])
    decreases |paths|
  {
    if paths == [] then 0
    else if !Readable(fs, paths[0]) then 0
    else 1 + FirstUnreadable(fs, paths[1..])
  }

  /** The modules as read from `fs`, when every path is readable. */
  function ModulesOf(fs: FileSystem, paths: seq<Path>): (ms: seq<Module>)
    requires forall j :: 0 <= j < |paths| ==> paths[j] in fs.files
    ensures |ms| == |paths|
    ensures forall j :: 0 <= j < |paths| ==> ms[j] == Module(paths[j], fs.files[paths[j]])
    decreases |paths|
  {
    if paths == [] then []
    else
      var last := paths[|paths| - 1];
      ModulesOf(fs, paths[..|paths| - 1]) + [Module(last, fs.files[last])]
  }

  /** `combineModules(out)`: read `order` front to back, building the output
      text in memory; the first failed read ends the run with a failure and
      no further access. Only when all reads succeed is `out` written, once;
      a failed write is a failure too. The file system changes only by that
      write. */
  method CombineModules(fs: FileSystem, timestamp: string, order: seq<Path>, out: Path)
    returns (status: Result<string, CombineError>, fs': FileSystem, trace: seq<Access>)
    ensures var i := FirstUnreadable(fs, order);
      i < |order| ==>
        && status == Failure(ReadError(order[i], ReadFile(fs, order[i]).error))
        && trace == ReadsOf(order[..i + 1])
        && fs' == fs
    ensures var i := FirstUnreadable(fs, order);
      i == |order| ==>
        && trace == ReadsOf(order) + [WriteAccess(out)]
        && var text := Combine(CodeGs, timestamp, ModulesOf(fs, order));
           match WriteFile(fs, out, text)
           case Success(written) => status == Success(text) && fs' == written
           case Failure(e) => status == Failure(WriteError(out, e)) && fs' == fs
    ensures status.Failure? ==> fs' == fs
  {
    var ms: seq<Module> := [];
    trace := [];
    var k := 0;
    while k < |order|
      invariant 0 <= k <= |order|
      invariant forall j :: 0 <= j < k ==> Readable(fs, order[j])
      invariant ms == ModulesOf(fs, order[..k])
      invariant trace == ReadsOf(order[..k])
    {
      ReadsOfSnoc(order, k);
      trace := trace + [ReadAccess(order[k])];
      match ReadFile(fs, order[k]) {
        case Failure(e) =>
          status := Failure(ReadError(order[k], e));
          fs' := fs;
          return;
        case Success(content) =>
          ModulesOfSnoc(fs, order, k);
          ms := ms + [Module(order[k], content)];
      }
      k := k + 1;
    }
    assert order[..k] == order;
    var text := Combine(CodeGs, timestamp, ms);
    trace := trace + [WriteAccess(out)];
    match WriteFile(fs, out, text) {
      case Failure(e) =>
        status := Failure(WriteError(out, e));
        fs' := fs;
      case Success(written) =>
        status := Success(text);
        fs' := written;
    }
  }

  lemma ReadsOfSnoc(paths: seq<Path>, k: nat)
    requires k < |paths|
    ensures ReadsOf(paths[..k + 1]) == ReadsOf(paths[..k]) + [ReadAccess(paths[k])]
  {
  }

  lemma ModulesOfSnoc(fs: FileSystem, paths: seq<Path>, k: nat)
    requires k < |paths|
    requires forall j :: 0 <= j <= k ==> paths[j] in fs.files
    ensures ModulesOf(fs, paths[..k + 1]) == ModulesOf(fs, paths[..k]) + [Module(paths[k], fs.files[paths[k]])]
  {
    assert paths[..k + 1][..k] == paths[..k];
  }

  /** The exit status the process ends with. */
  function ExitCode(status: Result<string, CombineError>): (code: int)
    ensures code == 0 <==> status.Success?
    ensures code == 1 <==> status.Failure?
  {
    if status.Success? then 0 else 1
  }
}
