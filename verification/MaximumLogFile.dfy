/**
 The search for a stream's greatest log in its directory tree: three-digit range directories four levels deep,
 visited depth first from the highest range down, with the directories still to visit on a stack.
 */
module MaximumLogFile {
  import opened Bytes
  import opened ByteDevice
  import opened Locations

  /** A symbolic link or special file is neither a regular file nor a directory. */
  datatype Node = RegularFile | Directory(entries: map<string, Node>) | Special

  /** What a path below a node leads to. */
  function Lookup(node: Node, path: seq<string>): Option<Node> {
    if path == [] then Some(node)
    else if node.Directory? && path[0] in node.entries then Lookup(node.entries[path[0]], path[1..])
    else None
  }

  lemma {:induction false} LookupBelow(node: Node, path: seq<string>, name: string)
    ensures Lookup(node, path + [name])
         == match Lookup(node, path)
            case Some(Directory(entries)) => if name in entries then Some(entries[name]) else None
            case _ => None
    decreases |path|
  {
    if path == [] {
      assert (path + [name])[1..] == [];
    } else {
      assert (path + [name])[1..] == path[1..] + [name];
      if node.Directory? && path[0] in node.entries {
        LookupBelow(node.entries[path[0]], path[1..], name);
      }
    }
  }

  /** Everything on the way to a node is a directory. */
  lemma {:induction false} DirectoriesOnTheWay(node: Node, path: seq<string>, k: nat)
    requires k < |path| && Lookup(node, path).Some?
    ensures var here := Lookup(node, path[..k]);
            && here.Some? && here.value.Directory? && path[k] in here.value.entries
            && Lookup(node, path[..k + 1]) == Some(here.value.entries[path[k]])
    decreases |path|
  {
    if k == 0 {
      assert path[..0] == [] && path[..1][1..] == [];
    } else {
      DirectoriesOnTheWay(node.entries[path[0]], path[1..], k - 1);
      assert path[..k][1..] == path[1..][..k - 1] && path[..k + 1][1..] == path[1..][..k];
    }
  }

  // ---------- Decimal names ----------

  function Digit(d: nat): char
    requires d < 10
  {
    ('0' as int + d) as char
  }

  function DigitValue(c: char): nat
    requires '0' <= c <= '9'
  {
    c as int - '0' as int
  }

  /** The last `width` decimal digits of a number, with leading zeros. */
  function Digits(n: nat, width: nat): (r: string)
    ensures |r| == width
  {
    if width == 0 then "" else Digits(n / 10, width - 1) + [Digit(n % 10)]
  }

  predicate IsDecimal(s: string) {
    forall i :: 0 <= i < |s| ==> '0' <= s[i] <= '9'
  }

  function Value(s: string): nat
    requires IsDecimal(s)
  {
    if s == "" then 0 else 10 * Value(s[..|s| - 1]) + DigitValue(s[|s| - 1])
  }

  function Pow(base: nat, exponent: nat): (r: nat)
    ensures base > 0 ==> r > 0
  {
    if exponent == 0 then 1 else base * Pow(base, exponent - 1)
  }

  lemma {:induction false} DigitsOfValue(s: string)
    requires IsDecimal(s)
    ensures Digits(Value(s), |s|) == s && Value(s) < Pow(10, |s|)
    decreases |s|
  {
    if s != "" {
      DigitsOfValue(s[..|s| - 1]);
      assert s == s[..|s| - 1] + [s[|s| - 1]];
    }
  }

  lemma {:induction false} ValueOfDigits(n: nat, width: nat)
    requires n < Pow(10, width)
    ensures IsDecimal(Digits(n, width)) && Value(Digits(n, width)) == n
    decreases width
  {
    if width > 0 {
      ValueOfDigits(n / 10, width - 1);
      var s := Digits(n, width);
      assert s[..|s| - 1] == Digits(n / 10, width - 1);
    }
  }

  lemma ThreeDigits(n: nat, width: nat)
    ensures Digits(n, width + 3) == Digits(n / 1000, width) + [Digit(n / 100 % 10), Digit(n / 10 % 10), Digit(n % 10)]
  {
    assert n / 10 / 10 == n / 100 && n / 10 / 10 / 10 == n / 1000;
    assert Digits(n, width + 3) == Digits(n / 10, width + 2) + [Digit(n % 10)];
    assert Digits(n / 10, width + 2) == Digits(n / 10 / 10, width + 1) + [Digit(n / 10 % 10)];
    assert Digits(n / 10 / 10, width + 1) == Digits(n / 10 / 10 / 10, width) + [Digit(n / 10 / 10 % 10)];
  }

  lemma LastThreeDigits(n: nat)
    ensures var m := n % 1000; m % 10 == n % 10 && m / 10 % 10 == n / 10 % 10 && m / 100 % 10 == n / 100 % 10
  {
    var m, k := n % 1000, n / 1000;
    assert n / 10 == 100 * k + m / 10;
    assert n / 100 == 10 * k + m / 100;
  }

  lemma NoDigits(n: nat)
    ensures Digits(n, 0) == ""
  {
  }

  lemma SplitDigits(n: nat, width: nat)
    ensures Digits(n, width + 3) == Digits(n / 1000, width) + Digits(n % 1000, 3)
  {
    hide Digits;
    LastThreeDigits(n);
    ThreeDigits(n, width);
    ThreeDigits(n % 1000, 0);
    NoDigits(n % 1000 / 1000);
  }

  // ---------- Where logs are stored ----------

  const DEPTH: nat := 4
  const EXTENSION: string := ".log"

  /** Path of a log below its stream's directory. */
  function LogFilePath(number: LogFileNumber): (r: seq<string>)
    ensures |r| == DEPTH + 1
  {
    var digits := Digits(number, 15);
    [digits[0..3], digits[3..6], digits[6..9], digits[9..12], digits + EXTENSION]
  }

  lemma {:induction false} DigitAt(n: nat, width: nat, i: nat)
    requires i < width
    ensures Digits(n, width)[width - 1 - i] as int == 48 + n / Pow(10, i) % 10
  {
    if i > 0 {
      DigitAt(n / 10, width - 1, i - 1);
      TenthThenDivide(n, Pow(10, i - 1));
    }
  }

  lemma TenthThenDivide(n: nat, d: nat)
    requires d > 0
    ensures n / 10 / d == n / (10 * d)
  {
    var q, r := n / 10 / d, n / 10 % d;
    assert n / 10 == d * q + r;
    QuotientOf(n, 10 * d, q, 10 * r + n % 10);
  }

  /** The path spelled out: fifteen decimal digits, whose first twelve are repeated as four directories. */
  lemma LogPathIsSpelled(number: LogFileNumber)
    ensures var path := LogFilePath(number);
            && |path| == 5 && |path[4]| == 19 && path[4][15..] == ".log"
            && path[0] == path[4][0..3] && path[1] == path[4][3..6] && path[2] == path[4][6..9] && path[3] == path[4][9..12]
            && forall i :: 0 <= i < 15 ==> path[4][14 - i] as int == 48 + number / Pow(10, i) % 10
  {
    hide Digits, Pow;
    var path := LogFilePath(number);
    assert path[4] == Digits(number, 15) + EXTENSION;
    forall i | 0 <= i < 15
      ensures path[4][14 - i] as int == 48 + number / Pow(10, i) % 10
    {
      DigitAt(number, 15, i);
    }
  }

  /** A stream's directory may not exist yet. */
  function Below(stream: Option<Node>, path: seq<string>): Option<Node> {
    match stream
    case None => None
    case Some(node) => Lookup(node, path)
  }

  /** Anything else in its place cannot be enumerated. */
  predicate IsStreamDirectory(stream: Option<Node>) {
    stream.Some? ==> stream.value.Directory?
  }

  predicate HasLog(stream: Option<Node>, number: LogFileNumber) {
    Below(stream, LogFilePath(number)) == Some(RegularFile)
  }

  /** All logs of the stream. */
  function Logs(stream: Option<Node>): set<LogFileNumber> {
    set n: LogFileNumber | 0 <= n <= MAX_FILE_NUMBER && HasLog(stream, n)
  }

  /** The range components of a prefix. */
  function RangePath(prefix: nat, depth: nat): (r: seq<string>)
    ensures |r| == depth
  {
    if depth == 0 then [] else RangePath(prefix / 1000, depth - 1) + [Digits(prefix % 1000, 3)]
  }

  /** How many file numbers a directory at this depth covers. */
  function Span(depth: nat): (r: nat)
    requires depth <= DEPTH
    ensures r > 0
  {
    Pow(1000, 5 - depth)
  }

  lemma Spans(depth: nat)
    requires depth <= DEPTH
    ensures Span(depth) == match depth
                           case 0 => 1_000_000_000_000_000
                           case 1 => 1_000_000_000_000
                           case 2 => 1_000_000_000
                           case 3 => 1_000_000
                           case _ => 1_000
  {
    assert Pow(1000, 1) == 1_000;
    assert Pow(1000, 2) == 1_000_000;
    assert Pow(1000, 3) == 1_000_000_000;
    assert Pow(1000, 4) == 1_000_000_000_000;
    assert Pow(1000, 5) == 1_000_000_000_000_000;
  }

  lemma Slices(digits: string, a: string, b: string, c: string, d: string, e: string)
    requires |a| == |b| == |c| == |d| == 3 && digits == a + b + c + d + e
    ensures |digits| >= 12 && digits[0..3] == a && digits[3..6] == b && digits[6..9] == c && digits[9..12] == d
  {
  }

  lemma LogFilePathParts(number: LogFileNumber)
    ensures LogFilePath(number)
         == [Digits(number / 1_000_000_000_000 % 1_000, 3), Digits(number / 1_000_000_000 % 1_000, 3),
             Digits(number / 1_000_000 % 1_000, 3), Digits(number / 1_000 % 1_000, 3), Digits(number, 15) + EXTENSION]
  {
    hide Digits;
    assert number / 1_000 / 1_000 == number / 1_000_000;
    assert number / 1_000_000 / 1_000 == number / 1_000_000_000;
    assert number / 1_000_000_000 / 1_000 == number / 1_000_000_000_000;
    SplitDigits(number, 12);
    SplitDigits(number / 1_000, 9);
    SplitDigits(number / 1_000_000, 6);
    SplitDigits(number / 1_000_000_000, 3);
    assert number / 1_000_000_000_000 % 1_000 == number / 1_000_000_000_000;
    Slices(Digits(number, 15), Digits(number / 1_000_000_000_000 % 1_000, 3), Digits(number / 1_000_000_000 % 1_000, 3),
           Digits(number / 1_000_000 % 1_000, 3), Digits(number / 1_000 % 1_000, 3), Digits(number % 1_000, 3));
  }

  lemma RangeStep(prefix: nat, depth: nat)
    requires depth > 0
    ensures RangePath(prefix, depth) == RangePath(prefix / 1000, depth - 1) + [Digits(prefix % 1000, 3)]
  {
  }

  function Quotient(n: nat, d: nat): nat
    requires d > 0
  {
    n / d
  }

  /** A log lies below exactly the range directories that cover its number. */
  lemma {:induction false} PathInRange(number: LogFileNumber, depth: nat)
    requires depth <= DEPTH
    ensures LogFilePath(number)[..depth] == RangePath(Quotient(number, Span(depth)), depth)
    decreases depth
  {
    hide Digits, LogFilePath, RangePath;
    if depth == 0 {
      assert RangePath(number / Span(0), 0) == [] by { NoRange(number / Span(0)); }
    } else {
      var path := LogFilePath(number);
      PathInRange(number, depth - 1);
      Spans(depth);
      Spans(depth - 1);
      RangeStep(number / Span(depth), depth);
      LogFilePathParts(number);
      assert number / Span(depth) / 1000 == number / Span(depth - 1);
      assert path[..depth] == path[..depth - 1] + [path[depth - 1]];
    }
  }

  lemma NoRange(prefix: nat)
    ensures RangePath(prefix, 0) == []
  {
  }

  lemma {:induction false} RangePathIsInjective(a: nat, b: nat, depth: nat)
    requires a < Pow(1000, depth) && b < Pow(1000, depth) && RangePath(a, depth) == RangePath(b, depth)
    ensures a == b
    decreases depth
  {
    if depth > 0 {
      var p, q := RangePath(a, depth), RangePath(b, depth);
      assert p[..depth - 1] == RangePath(a / 1000, depth - 1) && q[..depth - 1] == RangePath(b / 1000, depth - 1);
      assert p[depth - 1] == Digits(a % 1000, 3) && q[depth - 1] == Digits(b % 1000, 3);
      assert Pow(10, 3) == 1000;
      ValueOfDigits(a % 1000, 3);
      ValueOfDigits(b % 1000, 3);
      RangePathIsInjective(a / 1000, b / 1000, depth - 1);
    }
  }

  // ---------- The search ----------

  /** A directory still to visit: its path, its depth, and its range components read as one number. */
  datatype PendingDirectory = PendingDirectory(path: seq<string>, depth: nat, prefix: nat)

  predicate WellPlaced(d: PendingDirectory) {
    d.depth <= DEPTH && d.prefix < Pow(1000, d.depth) && d.path == RangePath(d.prefix, d.depth)
  }

  /** First file number of a directory's range. */
  function Low(d: PendingDirectory): nat
    requires d.depth <= DEPTH
  {
    d.prefix * Span(d.depth)
  }

  /** Exclusive end of a directory's range. */
  function High(d: PendingDirectory): (r: nat)
    requires d.depth <= DEPTH
    ensures r > Low(d)
  {
    Low(d) + Span(d.depth)
  }

  predicate Covers(d: PendingDirectory, n: LogFileNumber)
    requires d.depth <= DEPTH
  {
    Low(d) <= n < High(d)
  }

  lemma CoversItsPrefix(d: PendingDirectory, n: LogFileNumber)
    requires d.depth <= DEPTH
    ensures Covers(d, n) <==> n / Span(d.depth) == d.prefix
  {
    Spans(d.depth);
  }

  ghost predicate CoveredBy(directories: seq<PendingDirectory>, n: LogFileNumber) {
    exists i :: 0 <= i < |directories| && directories[i].depth <= DEPTH && Covers(directories[i], n)
  }

  function Child(d: PendingDirectory, name: string): PendingDirectory
    requires IsDecimal(name)
  {
    PendingDirectory(d.path + [name], d.depth + 1, d.prefix * 1000 + Value(name))
  }

  /** A child's range is its part of the parent's. */
  lemma ChildRange(d: PendingDirectory, name: string)
    requires WellPlaced(d) && d.depth < DEPTH && |name| == 3 && IsDecimal(name)
    ensures WellPlaced(Child(d, name))
    ensures Low(d) <= Low(Child(d, name)) && High(Child(d, name)) <= High(d)
    ensures name == Digits(Child(d, name).prefix % 1000, 3)
  {
    hide Digits, RangePath, IsDecimal;
    DigitsOfValue(name);
    assert Pow(10, 3) == 1000;
    var c := Child(d, name);
    assert c.prefix % 1000 == Value(name) && c.prefix / 1000 == d.prefix;
    RangeStep(c.prefix, c.depth);
    PowStep(1000, d.depth);
    PowStep(1000, 5 - c.depth);
    PartOfRange(d.prefix, Value(name), Span(c.depth));
  }

  lemma PowStep(base: nat, exponent: nat)
    ensures Pow(base, exponent + 1) == base * Pow(base, exponent)
  {
  }

  lemma PartOfRange(prefix: nat, part: nat, span: nat)
    requires part < 1000
    ensures var low := (prefix * 1000 + part) * span;
            prefix * (1000 * span) <= low && low + span <= prefix * (1000 * span) + 1000 * span
  {
    assert (prefix * 1000 + part) * span == prefix * (1000 * span) + part * span;
    assert (part + 1) * span <= 1000 * span;
  }

  lemma InnerQuotient(n: nat, depth: nat)
    requires depth < DEPTH
    ensures n / Span(depth + 1) / 1000 == n / Span(depth)
  {
    Spans(depth);
    Spans(depth + 1);
  }

  /** The component of a log's path below a directory that covers it. */
  lemma ComponentBelow(d: PendingDirectory, n: LogFileNumber) returns (name: string)
    requires WellPlaced(d) && d.depth < DEPTH && Covers(d, n)
    ensures LogFilePath(n)[..d.depth] == d.path && name == LogFilePath(n)[d.depth]
    ensures |name| == 3 && IsDecimal(name) && Covers(Child(d, name), n)
  {
    hide Digits, LogFilePath, RangePath, IsDecimal, Pow, Covers, High, Low;
    name := LogFilePath(n)[d.depth];
    PathInRange(n, d.depth);
    PathInRange(n, d.depth + 1);
    CoversItsPrefix(d, n);
    InnerQuotient(n, d.depth);
    var inner := n / Span(d.depth + 1);
    RangeStep(inner, d.depth + 1);
    assert LogFilePath(n)[..d.depth + 1][d.depth] == name;
    Thousand();
    ValueOfDigits(inner % 1000, 3);
    CoversItsPrefix(Child(d, name), n);
  }

  lemma Thousand()
    ensures Pow(10, 3) == 1000
  {
  }

  /** Every log in a directory's range lies below the child whose range it is in. */
  lemma LogBelowChild(stream: Option<Node>, d: PendingDirectory, n: LogFileNumber) returns (name: string)
    requires WellPlaced(d) && d.depth < DEPTH && HasLog(stream, n) && Covers(d, n)
    ensures var here := Below(stream, d.path);
            && here.Some? && here.value.Directory? && IsChild(d, here.value.entries, name)
    ensures Covers(Child(d, name), n)
  {
    hide LogFilePath, Lookup, IsDecimal, WellPlaced, High, Span;
    name := ComponentBelow(d, n);
    DirectoriesOnTheWay(stream.value, LogFilePath(n), d.depth);
    DirectoriesOnTheWay(stream.value, LogFilePath(n), d.depth + 1);
  }

  predicate Descending(directories: seq<PendingDirectory>) {
    forall i, j :: 0 <= i < j < |directories| ==> directories[i].prefix > directories[j].prefix
  }

  /** Insertion that keeps distinct prefixes in descending order. */
  function Insert(d: PendingDirectory, sorted: seq<PendingDirectory>): (r: seq<PendingDirectory>)
    ensures forall x :: x in r <==> x == d || x in sorted
  {
    if sorted == [] || d.prefix > sorted[0].prefix then [d] + sorted
    else
      assert forall x :: x in sorted <==> x == sorted[0] || x in sorted[1..];
      [sorted[0]] + Insert(d, sorted[1..])
  }

  lemma {:induction false} InsertDescends(d: PendingDirectory, sorted: seq<PendingDirectory>)
    requires Descending(sorted) && forall x :: x in sorted ==> x.prefix != d.prefix
    ensures Descending(Insert(d, sorted))
  {
    if sorted != [] && d.prefix <= sorted[0].prefix {
      InsertDescends(d, sorted[1..]);
      var rest := Insert(d, sorted[1..]);
      forall j | 0 <= j < |rest|
        ensures rest[j].prefix < sorted[0].prefix
      {
        assert rest[j] in rest;
      }
    }
  }

  /** A child that was found by name. */
  ghost predicate FoundChild(d: PendingDirectory, entries: map<string, Node>, names: set<string>, c: PendingDirectory)
    requires d.depth < DEPTH
  {
    exists name :: name in names && IsChild(d, entries, name) && c == Child(d, name)
  }

  predicate IsChild(d: PendingDirectory, entries: map<string, Node>, name: string)
    requires d.depth < DEPTH
  {
    && name in entries && |name| == 3 && IsDecimal(name) && entries[name].Directory?
    && Low(Child(d, name)) <= MAX_FILE_NUMBER
  }

  /** A directory on the stack exists; only the stream's own directory may be absent. */
  predicate Visitable(stream: Option<Node>, d: PendingDirectory) {
    WellPlaced(d) && (d.depth > 0 ==> Below(stream, d.path).Some? && Below(stream, d.path).value.Directory?)
  }

  /** Children found from the names enumerated so far. */
  ghost predicate ChildrenOf(d: PendingDirectory, entries: map<string, Node>, names: set<string>, children: seq<PendingDirectory>)
    requires d.depth < DEPTH
  {
    && Descending(children)
    && (forall c :: c in children ==> FoundChild(d, entries, names, c))
    && (forall name :: name in names && IsChild(d, entries, name) ==> Child(d, name) in children)
  }

  /** All children of a directory; a stream without its directory has none. */
  ghost predicate Enumerated(stream: Option<Node>, d: PendingDirectory, children: seq<PendingDirectory>)
    requires d.depth < DEPTH
  {
    match Below(stream, d.path)
    case None => children == []
    case Some(node) => node.Directory? && ChildrenOf(d, node.entries, node.entries.Keys, children)
  }

  /** Valid child ranges in descending order. */
  method RangeDirectories(stream: Option<Node>, directory: PendingDirectory, script: seq<IoStep>)
    returns (r: Outcome, children: seq<PendingDirectory>, left: seq<IoStep>)
    requires Visitable(stream, directory) && directory.depth < DEPTH
    ensures r == Done ==> Enumerated(stream, directory, children)
    ensures IsStreamDirectory(stream) ==> Operations(script, left, r)
    ensures !IsStreamDirectory(stream) ==> r == NoDirectory(script) && left == Rest(script)
    ensures Smooth(script) && IsStreamDirectory(stream) ==> r == Done && Smooth(left)
  {
    hide Smooth, Operations;
    OneCall(script);
    children := [];
    var node, effect := Below(stream, directory.path), false;
    r, effect, left := NextOutcome(script);  // open the directory
    if r != Done || node == None {
      return;
    }
    if !node.value.Directory? {
      r := Failed;
      return;
    }
    var entries := node.value.entries;
    var rest := entries.Keys;
    while rest != {}
      invariant rest <= entries.Keys && ChildrenOf(directory, entries, entries.Keys - rest, children)
      invariant Smooth(script) ==> Smooth(left)
      invariant Operations(script, left, Done)
      decreases |rest|
    {
      OperationNext(script, left);
      r, effect, left := NextOutcome(left);  // read the next entry
      if r != Done {
        return;
      }
      var name :| name in rest;
      ghost var seen := entries.Keys - rest;
      rest := rest - {name};
      assert entries.Keys - rest == seen + {name};
      if |name| != 3 || !IsDecimal(name) {
        SkipName(directory, entries, seen, name, children);
        continue;
      }
      var child := Child(directory, name);
      if Low(child) > MAX_FILE_NUMBER {
        SkipName(directory, entries, seen, name, children);
        continue;
      }
      OperationNext(script, left);
      r, effect, left := NextOutcome(left);  // read its type
      if r != Done {
        return;
      }
      if !entries[name].Directory? {
        SkipName(directory, entries, seen, name, children);
        continue;
      }
      AddName(directory, entries, seen, name, children);
      children := Insert(child, children);
    }
    assert entries.Keys - rest == entries.Keys;
    OperationNext(script, left);
    r, effect, left := NextOutcome(left);  // no more entries
  }

  lemma SkipName(d: PendingDirectory, entries: map<string, Node>, seen: set<string>, name: string, children: seq<PendingDirectory>)
    requires d.depth < DEPTH && ChildrenOf(d, entries, seen, children) && !IsChild(d, entries, name)
    ensures ChildrenOf(d, entries, seen + {name}, children)
  {
    forall c | c in children
      ensures FoundChild(d, entries, seen + {name}, c)
    {
      assert FoundChild(d, entries, seen, c);
    }
  }

  lemma AddName(d: PendingDirectory, entries: map<string, Node>, seen: set<string>, name: string, children: seq<PendingDirectory>)
    requires d.depth < DEPTH && ChildrenOf(d, entries, seen, children) && IsChild(d, entries, name) && name !in seen
    ensures ChildrenOf(d, entries, seen + {name}, Insert(Child(d, name), children))
  {
    hide Insert;
    forall c | c in children
      ensures FoundChild(d, entries, seen + {name}, c) && c.prefix != Child(d, name).prefix
    {
      assert FoundChild(d, entries, seen, c);
      var other :| other in seen && IsChild(d, entries, other) && c == Child(d, other);
      DigitsOfValue(name);
      DigitsOfValue(other);
    }
    InsertDescends(Child(d, name), children);
  }

  /** The number a file name stands for, if it has the form of a log's name. */
  function LogNumber(name: string): Option<LogFileNumber> {
    if |name| < |EXTENSION| || name[|name| - |EXTENSION|..] != EXTENSION then None
    else
      var digits := name[..|name| - |EXTENSION|];
      if |digits| != 15 || !IsDecimal(digits) || Value(digits) > MAX_FILE_NUMBER then None
      else Some(Value(digits))
  }

  /** The entry is a regular file whose whole path is the one its number has. */
  predicate IsLogIn(d: PendingDirectory, entries: map<string, Node>, name: string) {
    && name in entries && entries[name].RegularFile? && LogNumber(name).Some?
    && LogFilePath(LogNumber(name).value) == d.path + [name]
  }

  /** A leaf's log entries are exactly the stream's logs in its range. */
  lemma LogsInLeaf(stream: Option<Node>, d: PendingDirectory, entries: map<string, Node>, n: LogFileNumber)
    requires WellPlaced(d) && d.depth == DEPTH && Below(stream, d.path) == Some(Directory(entries))
    ensures HasLog(stream, n) && Covers(d, n)
            <==> IsLogIn(d, entries, Digits(n, 15) + EXTENSION) && LogNumber(Digits(n, 15) + EXTENSION) == Some(n)
  {
    hide Digits, RangePath, Lookup, IsDecimal, Pow, Value;
    var path, name := LogFilePath(n), Digits(n, 15) + EXTENSION;
    NameOfNumber(n);
    PathInRange(n, DEPTH);
    CoversItsPrefix(d, n);
    LookupBelow(stream.value, d.path, name);
    assert path == path[..DEPTH] + [name];
    if path == d.path + [name] {
      LeafOfNumber(n, d.prefix);
    }
  }

  lemma NameOfNumber(n: LogFileNumber)
    ensures LogNumber(Digits(n, 15) + EXTENSION) == Some(n)
  {
    hide Digits, IsDecimal, Value;
    var name := Digits(n, 15) + EXTENSION;
    assert name[..15] == Digits(n, 15) && name[15..] == EXTENSION;
    FifteenDigits();
    ValueOfDigits(n, 15);
  }

  lemma FifteenDigits()
    ensures Pow(10, 15) == 1_000_000_000_000_000
  {
    assert Pow(10, 5) == 100_000;
    assert Pow(10, 10) == 10_000_000_000;
  }

  lemma NumberOfName(name: string)
    requires LogNumber(name).Some?
    ensures name == Digits(LogNumber(name).value, 15) + EXTENSION
  {
    hide Digits, IsDecimal, Value;
    DigitsOfValue(name[..15]);
    assert name == name[..15] + EXTENSION;
  }

  lemma LeafOfNumber(n: LogFileNumber, prefix: nat)
    requires prefix < Pow(1000, DEPTH) && LogFilePath(n)[..DEPTH] == RangePath(prefix, DEPTH)
    ensures n / Span(DEPTH) == prefix
  {
    hide LogFilePath, RangePath;
    PathInRange(n, DEPTH);
    Spans(DEPTH);
    assert Pow(1000, 4) == 1_000_000_000_000;
    RangePathIsInjective(n / 1000, prefix, DEPTH);
  }

  /** The greatest log whose name has been seen. */
  ghost predicate GreatestSeen(d: PendingDirectory, entries: map<string, Node>, names: set<string>, maximum: Option<LogFileNumber>) {
    match maximum
    case None => forall name :: name in names ==> !IsLogIn(d, entries, name)
    case Some(m) =>
      && (exists name :: name in names && IsLogIn(d, entries, name) && LogNumber(name) == Some(m))
      && forall name :: name in names && IsLogIn(d, entries, name) ==> LogNumber(name).value <= m
  }

  /** The greatest log directly in a leaf directory. */
  method MaximumLogInDirectory(stream: Option<Node>, directory: PendingDirectory, script: seq<IoStep>)
    returns (r: Outcome, maximum: Option<LogFileNumber>, left: seq<IoStep>)
    requires Visitable(stream, directory) && directory.depth == DEPTH
    ensures r == Done ==> GreatestSeen(directory, Below(stream, directory.path).value.entries,
                                       Below(stream, directory.path).value.entries.Keys, maximum)
    ensures Operations(script, left, r)
    ensures Smooth(script) ==> r == Done && Smooth(left)
  {
    hide Smooth, Operations;
    OneCall(script);
    var effect;
    maximum := None;
    r, effect, left := NextOutcome(script);  // open the directory
    if r != Done {
      return;
    }
    var entries := Below(stream, directory.path).value.entries;
    var rest := entries.Keys;
    while rest != {}
      invariant rest <= entries.Keys && GreatestSeen(directory, entries, entries.Keys - rest, maximum)
      invariant Smooth(script) ==> Smooth(left)
      invariant Operations(script, left, Done)
      decreases |rest|
    {
      OperationNext(script, left);
      r, effect, left := NextOutcome(left);  // read the next entry
      if r != Done {
        return;
      }
      var name :| name in rest;
      ghost var seen := entries.Keys - rest;
      rest := rest - {name};
      assert entries.Keys - rest == seen + {name};
      var number := LogNumber(name);
      if number == None || LogFilePath(number.value) != directory.path + [name] {
        continue;
      }
      OperationNext(script, left);
      r, effect, left := NextOutcome(left);  // read its type
      if r != Done {
        return;
      }
      if entries[name].RegularFile? && (maximum == None || number.value > maximum.value) {
        maximum := number;
      }
    }
    assert entries.Keys - rest == entries.Keys;
    OperationNext(script, left);
    r, effect, left := NextOutcome(left);  // no more entries
  }

  function Reversed<T>(s: seq<T>): (r: seq<T>)
    ensures |r| == |s| && forall i :: 0 <= i < |r| ==> r[i] == s[|s| - 1 - i]
  {
    seq(|s|, i requires 0 <= i < |s| => s[|s| - 1 - i])
  }

  /** Pending ranges do not overlap and ascend to the top of the stack. */
  ghost predicate Stacked(stream: Option<Node>, pending: seq<PendingDirectory>) {
    && (forall i :: 0 <= i < |pending| ==> pending[i].depth <= DEPTH && Visitable(stream, pending[i]))
    && forall i, j :: 0 <= i < j < |pending| ==> High(pending[i]) <= Low(pending[j])
  }

  /** Every log that has not been ruled out lies in a pending range. */
  ghost predicate AllPending(stream: Option<Node>, pending: seq<PendingDirectory>) {
    forall n :: n in Logs(stream) ==> CoveredBy(pending, n)
  }

  /** Listing what is no directory fails. */
  function NoDirectory(script: seq<IoStep>): Outcome {
    var outcome := CallOutcome(FirstStep(script));
    if outcome == Done then Failed else outcome
  }

  /** The greatest log of the stream, or none if there is none. */
  method MaximumLogFile(stream: Option<Node>, script: seq<IoStep>)
    returns (r: Outcome, maximum: Option<LogFileNumber>, left: seq<IoStep>)
    ensures r == Done ==> IsMaximum(Logs(stream), maximum)
    ensures IsStreamDirectory(stream) ==> Operations(script, left, r)
    ensures !IsStreamDirectory(stream) ==> r == NoDirectory(script)
    ensures Smooth(script) && IsStreamDirectory(stream) ==> r == Done && Smooth(left)
  {
    hide Smooth, Operations, Logs, Visitable, Low, High, GreatestSeen, Enumerated, Below, Span, AllPending, Covers;
    var pending := [PendingDirectory([], 0, 0)];
    left := script;
    NothingMet(script);
    ghost var steps := script;
    WholeRange(stream);
    while pending != []
      invariant Stacked(stream, pending) && AllPending(stream, pending)
      invariant IsStreamDirectory(stream) ==> Operations(script, left, Done)
      invariant !IsStreamDirectory(stream) ==> left == script && pending == [PendingDirectory([], 0, 0)]
      invariant Smooth(script) && IsStreamDirectory(stream) ==> Smooth(left)
      decreases if pending == [] then 0 else High(pending[|pending| - 1]),
                if pending == [] then 0 else DEPTH + 1 - pending[|pending| - 1].depth
    {
      var directory := pending[|pending| - 1];
      ghost var before := pending;
      pending := pending[..|pending| - 1];
      if directory.depth == DEPTH {
        var found;
        steps := left;
        r, found, left := MaximumLogInDirectory(stream, directory, left);
        OperationsThen(script, steps, left, r);
        if r != Done {
          return r, None, left;
        }
        LeafVisited(stream, before, found);
        if found.Some? {
          return Done, found, left;
        }
      } else {
        var children;
        steps := left;
        r, children, left := RangeDirectories(stream, directory, left);
        if IsStreamDirectory(stream) {
          OperationsThen(script, steps, left, r);
        }
        if r != Done {
          return r, None, left;
        }
        ChildrenPushed(stream, before, children);
        pending := pending + Reversed(children);
      }
    }
    NothingPending(stream);
    return Done, None, left;
  }

  lemma WholeRange(stream: Option<Node>)
    ensures var whole := [PendingDirectory([], 0, 0)]; Stacked(stream, whole) && AllPending(stream, whole)
  {
    Spans(0);
    var whole := [PendingDirectory([], 0, 0)];
    assert forall n: LogFileNumber :: Covers(whole[0], n);
  }

  lemma NothingPending(stream: Option<Node>)
    requires AllPending(stream, [])
    ensures IsMaximum(Logs(stream), None)
  {
    forall n: LogFileNumber
      ensures n !in Logs(stream)
    {
      assert !CoveredBy([], n);
    }
  }

  lemma LogsInDomain(stream: Option<Node>, n: LogFileNumber)
    ensures n in Logs(stream) <==> HasLog(stream, n)
  {
    hide HasLog;
  }

  /** A leaf with a log holds the greatest one of all; without one it is ruled out. */
  lemma LeafVisited(stream: Option<Node>, before: seq<PendingDirectory>, found: Option<LogFileNumber>)
    requires Stacked(stream, before) && AllPending(stream, before) && before != []
    requires before[|before| - 1].depth == DEPTH
    requires var d := before[|before| - 1];
             GreatestSeen(d, Below(stream, d.path).value.entries, Below(stream, d.path).value.entries.Keys, found)
    ensures found.Some? ==> IsMaximum(Logs(stream), found)
    ensures found == None ==>
              && Stacked(stream, before[..|before| - 1]) && AllPending(stream, before[..|before| - 1])
              && (|before| > 1 ==> High(before[|before| - 2]) < High(before[|before| - 1]))
  {
    hide Logs, HasLog, IsLogIn, LogNumber, Low, Span;
    var top := |before| - 1;
    var d := before[top];
    var entries := Below(stream, d.path).value.entries;
    forall n | n in Logs(stream)
      ensures Covers(d, n) ==> found.Some? && n <= found.value
      ensures !Covers(d, n) ==> n < Low(d) && CoveredBy(before[..top], n)
    {
      LogsInDomain(stream, n);
      LogsInLeaf(stream, d, entries, n);
      assert CoveredBy(before, n);
      if !Covers(d, n) {
        var i :| 0 <= i < |before| && Covers(before[i], n);
        assert before[..top][i] == before[i];
      }
      IsLogHasEntry(d, entries, Digits(n, 15) + EXTENSION);
    }
    if found.Some? {
      var name :| name in entries.Keys && IsLogIn(d, entries, name) && LogNumber(name) == found;
      NumberOfName(name);
      LogsInLeaf(stream, d, entries, found.value);
      LogsInDomain(stream, found.value);
    }
  }

  lemma IsLogHasEntry(d: PendingDirectory, entries: map<string, Node>, name: string)
    ensures IsLogIn(d, entries, name) ==> name in entries
  {
    hide LogNumber, LogFilePath;
  }

  lemma SiblingRanges(a: PendingDirectory, b: PendingDirectory)
    requires a.depth == b.depth <= DEPTH && a.prefix < b.prefix
    ensures High(a) <= Low(b)
  {
    hide Span;
    ScaledOrder(a.prefix, b.prefix, Span(a.depth));
  }

  lemma {:induction false} ScaledOrder(p: nat, q: nat, span: nat)
    requires p < q
    ensures p * span + span <= q * span
    decreases q
  {
    if q > p + 1 {
      ScaledOrder(p, q - 1, span);
    }
    assert q * span == (q - 1) * span + span;
  }

  /** Each child of a pending directory takes over its part of the range. */
  lemma ChildTakesOver(stream: Option<Node>, d: PendingDirectory, children: seq<PendingDirectory>, c: PendingDirectory)
    requires Visitable(stream, d) && d.depth < DEPTH && Enumerated(stream, d, children) && c in children
    ensures Visitable(stream, c) && c.depth == d.depth + 1 && Low(d) <= Low(c) && High(c) <= High(d)
  {
    hide WellPlaced, High, Low, Lookup;
    var entries := Below(stream, d.path).value.entries;
    assert FoundChild(d, entries, entries.Keys, c);
    var name :| name in entries.Keys && IsChild(d, entries, name) && c == Child(d, name);
    ChildRange(d, name);
    LookupBelow(stream.value, d.path, name);
  }

  lemma ChildrenPushed(stream: Option<Node>, before: seq<PendingDirectory>, children: seq<PendingDirectory>)
    requires Stacked(stream, before) && AllPending(stream, before) && before != []
    requires before[|before| - 1].depth < DEPTH && Enumerated(stream, before[|before| - 1], children)
    ensures var pending := before[..|before| - 1] + Reversed(children);
            var d := before[|before| - 1];
            && Stacked(stream, pending) && AllPending(stream, pending)
            && (pending != [] ==>
                  var top := pending[|pending| - 1];
                  High(top) < High(d) || (High(top) == High(d) && top.depth > d.depth))
  {
    hide Logs, Visitable, Low, High, Enumerated, Covers;
    var d := before[|before| - 1];
    var front, back := before[..|before| - 1], Reversed(children);
    forall c | c in children
      ensures Visitable(stream, c) && c.depth == d.depth + 1 && Low(d) <= Low(c) && High(c) <= High(d)
    {
      ChildTakesOver(stream, d, children, c);
    }
    forall i | 0 <= i < |back|
      ensures back[i] in children
    {
    }
    forall i, j | 0 <= i < j < |back|
      ensures High(back[i]) <= Low(back[j])
    {
      EnumeratedDescends(stream, d, children);
      SiblingRanges(back[i], back[j]);
    }
    forall n | n in Logs(stream)
      ensures CoveredBy(front + back, n)
    {
      PendingAfterPush(stream, before, children, n);
    }
  }

  lemma EnumeratedDescends(stream: Option<Node>, d: PendingDirectory, children: seq<PendingDirectory>)
    requires d.depth < DEPTH && Enumerated(stream, d, children)
    ensures Descending(children)
  {
  }

  /** A log in the popped range is in a child's. */
  lemma PendingAfterPush(stream: Option<Node>, before: seq<PendingDirectory>, children: seq<PendingDirectory>, n: LogFileNumber)
    requires before != [] && Visitable(stream, before[|before| - 1])
    requires before[|before| - 1].depth < DEPTH && Enumerated(stream, before[|before| - 1], children)
    requires n in Logs(stream) && CoveredBy(before, n)
    ensures CoveredBy(before[..|before| - 1] + Reversed(children), n)
  {
    hide Logs, HasLog, Covers, WellPlaced, IsChild, Child;
    var d, all := before[|before| - 1], before[..|before| - 1] + Reversed(children);
    var i :| 0 <= i < |before| && before[i].depth <= DEPTH && Covers(before[i], n);
    if i < |before| - 1 {
      assert all[i] == before[i];
    } else {
      LogsInDomain(stream, n);
      var name := LogBelowChild(stream, d, n);
      var entries := Below(stream, d.path).value.entries;
      var c := ChildListed(d, entries, children, name, n);
      var j :| 0 <= j < |children| && children[j] == c;
      assert Reversed(children)[|children| - 1 - j] == c;
      assert all[|before| - 1 + (|children| - 1 - j)] == c;
    }
  }

  lemma ChildListed(d: PendingDirectory, entries: map<string, Node>, children: seq<PendingDirectory>, name: string, n: LogFileNumber)
    returns (c: PendingDirectory)
    requires d.depth < DEPTH && ChildrenOf(d, entries, entries.Keys, children) && IsChild(d, entries, name)
    requires Covers(Child(d, name), n)
    ensures c in children && c.depth <= DEPTH && Covers(c, n)
  {
    c := Child(d, name);
  }

  // ---------- Trees for sets of logs ----------

  /** The stream's directory holds exactly these logs, and possibly anything that is no log. */
  predicate Represents(stream: Option<Node>, numbers: set<LogFileNumber>) {
    IsStreamDirectory(stream) && Logs(stream) == numbers
  }

  /** The node with a regular file at `path`, and the directories leading there. */
  function WithFile(node: Node, path: seq<string>): Node
    decreases |path|
  {
    if path == [] then RegularFile
    else
      var entries := if node.Directory? then node.entries else map[];
      var child := if path[0] in entries then entries[path[0]] else Directory(map[]);
      Directory(entries[path[0] := WithFile(child, path[1..])])
  }

  lemma {:induction false} LookupWithFile(node: Node, path: seq<string>, other: seq<string>)
    requires |other| == |path|
    ensures Lookup(WithFile(node, path), other) == if other == path then Some(RegularFile) else Lookup(node, other)
    decreases |path|
  {
    if path != [] && other[0] == path[0] {
      var entries := if node.Directory? then node.entries else map[];
      var child := if path[0] in entries then entries[path[0]] else Directory(map[]);
      LookupWithFile(child, path[1..], other[1..]);
      assert other == path <==> other[1..] == path[1..] by {
        assert other == [other[0]] + other[1..] && path == [path[0]] + path[1..];
      }
    }
  }

  lemma PathsAreDistinct(a: LogFileNumber, b: LogFileNumber)
    requires LogFilePath(a) == LogFilePath(b)
    ensures a == b
  {
    hide Digits, LogNumber;
    NameOfNumber(a);
    NameOfNumber(b);
    assert LogFilePath(a)[DEPTH] == Digits(a, 15) + EXTENSION && LogFilePath(b)[DEPTH] == Digits(b, 15) + EXTENSION;
  }

  /** Every set of file numbers is the logs of some stream directory. */
  lemma {:induction false} AnyLogsHaveATree(numbers: set<LogFileNumber>)
    ensures exists stream: Option<Node> :: Represents(stream, numbers)
    decreases |numbers|
  {
    hide HasLog;
    if numbers == {} {
      forall n: LogFileNumber
        ensures !HasLog(None, n)
      {
        NoLogs(n);
      }
      assert Represents(None, numbers);
    } else {
      var n :| n in numbers;
      AnyLogsHaveATree(numbers - {n});
      var fewer: Option<Node> :| Represents(fewer, numbers - {n});
      var stream := Some(WithFile(if fewer.Some? then fewer.value else Directory(map[]), LogFilePath(n)));
      forall k: LogFileNumber
        ensures HasLog(stream, k) <==> k in numbers
      {
        LogAdded(fewer, n, k);
        LogsInDomain(fewer, k);
      }
      assert Represents(stream, numbers);
    }
  }

  lemma NoLogs(n: LogFileNumber)
    ensures !HasLog(None, n)
  {
  }

  lemma LogAdded(stream: Option<Node>, n: LogFileNumber, k: LogFileNumber)
    ensures var added := Some(WithFile(if stream.Some? then stream.value else Directory(map[]), LogFilePath(n)));
            IsStreamDirectory(added) && (HasLog(added, k) <==> k == n || HasLog(stream, k))
  {
    hide LogFilePath;
    LookupWithFile(if stream.Some? then stream.value else Directory(map[]), LogFilePath(n), LogFilePath(k));
    if LogFilePath(n) == LogFilePath(k) {
      PathsAreDistinct(n, k);
    }
  }
}
