/** The kernel's mount table (internal/collector/mountinfo.go). */
module MountInfo {
  import opened Text
  import opened State
  import Disk

  // ---------- escaped fields ----------

  function Unescape(escape: string): Option<char> {
    if escape == "\\040" then Some(' ')
    else if escape == "\\011" then Some('\t')
    else if escape == "\\012" then Some('\n')
    else if escape == "\\134" then Some('\\')
    else None
  }

  /** The field an escaped text stands for, or None for a truncated or unknown escape. */
  function Decode(value: string): Option<string> {
    if value == "" then Some("")
    else if value[0] != '\\' then Prefixed(value[0], Decode(value[1..]))
    else if |value| < 4 || Unescape(value[..4]).None? then None
    else Prefixed(Unescape(value[..4]).value, Decode(value[4..]))
  }

  function Prefixed(c: char, rest: Option<string>): Option<string> {
    if rest.None? then None else Some([c] + rest.value)
  }

  function Escape(c: char): string {
    if c == ' ' then "\\040" else if c == '\t' then "\\011" else if c == '\n' then "\\012"
    else if c == '\\' then "\\134" else [c]
  }

  /** How the kernel writes a field. */
  function Encode(field: string): string {
    if field == "" then "" else Escape(field[0]) + Encode(field[1..])
  }

  /** Reading an escaped field gives it back, whatever it contains. */
  lemma {:induction false} DecodeEncode(field: string)
    ensures Decode(Encode(field)) == Some(field)
  {
    if field != "" {
      var e, rest := Escape(field[0]), Encode(field[1..]);
      DecodeEncode(field[1..]);
      HeadTail(e, rest);
      FirstRest(field);
    }
  }

  predicate Raw(c: char) { c == ' ' || c == '\t' || c == '\n' }

  /** Escaping an accepted field again gives it back exactly when it contains no raw
      space, tab or newline. */
  lemma {:induction false} EncodeDecode(value: string)
    requires Decode(value).Some?
    ensures Encode(Decode(value).value) == value <==> forall c <- value :: !Raw(c)
  {
    if value != "" {
      var n := if value[0] == '\\' then 4 else 1;
      var head, tail := value[..n], value[n..];
      EncodeDecode(tail);
      var decoded := Decode(value).value;
      assert value == head + tail && decoded[1..] == Decode(tail).value;
      assert Encode(decoded) == Escape(decoded[0]) + Encode(decoded[1..]);
      if Raw(value[0]) {
        assert Encode(decoded)[0] == '\\';
      } else {
        HeadKept(value);
        SameRest(head, Encode(decoded[1..]), tail);
        assert (forall c <- value :: !Raw(c)) <==> (forall c <- head :: !Raw(c)) && (forall c <- tail :: !Raw(c));
      }
    }
  }

  lemma HeadKept(value: string)
    requires value != "" && !Raw(value[0]) && Decode(value).Some?
    ensures var n := if value[0] == '\\' then 4 else 1;
      n <= |value| && Escape(Decode(value).value[0]) == value[..n] && forall c <- value[..n] :: !Raw(c)
  {
    if value[0] == '\\' {
      EscapeUnescape(value[..4]);
    } else {
      assert value[..1] == [value[0]];
    }
  }

  lemma EscapeUnescape(escape: string)
    requires Unescape(escape).Some?
    ensures Escape(Unescape(escape).value) == escape && forall c <- escape :: !Raw(c)
  {
  }

  lemma SameRest(head: string, a: string, b: string)
    ensures head + a == head + b <==> a == b
  {
    assert a == (head + a)[|head|..] && b == (head + b)[|head|..];
  }

  function Then(decoded: string, rest: Option<string>): Option<string> {
    if rest.None? then None else Some(decoded + rest.value)
  }

  lemma ThenOne(decoded: string, c: char, rest: Option<string>)
    ensures Then(decoded, Prefixed(c, rest)) == Then(decoded + [c], rest)
  {
    if rest.Some? { assert decoded + ([c] + rest.value) == decoded + [c] + rest.value; }
  }

  lemma ThenEdges(value: string)
    ensures Then("", Decode(value[0..])) == Decode(value)
    ensures Then(value, Some("")) == Some(value)
  {
    assert value[0..] == value && value + "" == value;
    if Decode(value).Some? { assert "" + Decode(value).value == Decode(value).value; }
  }

  method DecodeField(value: string) returns (field: Option<string>)
    ensures field == Decode(value)
  {
    var decoded := "";
    var i := 0;
    ThenEdges(value);
    while i < |value|
      invariant 0 <= i <= |value|
      invariant Decode(value) == Then(decoded, Decode(value[i..]))
    {
      var rest := value[i..];
      if value[i] != '\\' {
        assert rest[1..] == value[i + 1..];
        ThenOne(decoded, value[i], Decode(value[i + 1..]));
        decoded := decoded + [value[i]];
        i := i + 1;
        continue;
      }
      if i + 4 > |value| { return None; }
      assert rest[..4] == value[i..i + 4] && rest[4..] == value[i + 4..];
      var c := Unescape(value[i..i + 4]);
      if c.None? { return None; }
      ThenOne(decoded, c.value, Decode(value[i + 4..]));
      decoded := decoded + [c.value];
      i := i + 4;
    }
    ThenEdges(decoded);
    return Some(decoded);
  }

  lemma {:induction false} DecodeNotEmpty(value: string)
    requires value != "" && Decode(value).Some?
    ensures Decode(value).value != ""
  {
  }

  /** Every character of a decoded field was there before or comes from an escape. */
  lemma {:induction false} DecodeSources(value: string)
    requires Decode(value).Some?
    ensures forall c <- Decode(value).value :: c in value || Raw(c) || c == '\\'
  {
    if value != "" {
      var n := if value[0] == '\\' then 4 else 1;
      DecodeSources(value[n..]);
    }
  }

  // ---------- fields of a line ----------

  function WordEnd(s: string): (i: nat)
    ensures i <= |s| && (forall j :: 0 <= j < i ==> !IsSpace(s[j])) && (i < |s| ==> IsSpace(s[i]))
  {
    if s == "" || IsSpace(s[0]) then 0 else 1 + WordEnd(s[1..])
  }

  /** strings.Fields */
  function Fields(s: string): seq<string>
    decreases |s|
  {
    if s == "" then []
    else if IsSpace(s[0]) then Fields(s[1..])
    else [s[..WordEnd(s)]] + Fields(s[WordEnd(s)..])
  }

  predicate Word(s: string) { s != "" && forall c <- s :: !IsSpace(c) }

  lemma {:induction false} FieldsAreWords(s: string)
    ensures forall w <- Fields(s) :: Word(w)
    decreases |s|
  {
    if s == "" {
    } else if IsSpace(s[0]) {
      FieldsAreWords(s[1..]);
    } else {
      FieldsAreWords(s[WordEnd(s)..]);
    }
  }

  lemma {:induction false} FieldsOfWords(words: seq<string>)
    requires forall w <- words :: Word(w)
    ensures Fields(Join(words, ' ')) == words
  {
    if |words| == 1 {
      OneWord(words[0]);
    } else if words != [] {
      FieldsOfWords(words[1..]);
      FirstRest(words);
      JoinMore(words[0], words[1..], ' ');
      FirstWord(words[0], ' ', Join(words[1..], ' '));
    }
  }

  lemma OneWord(w: string)
    requires Word(w)
    ensures Fields(w) == [w]
  {
    WordEndIs(w, |w|);
    WholeSlice(w);
  }

  /** A word ends at white space. */
  lemma FirstWord(w: string, c: char, tail: string)
    requires Word(w) && IsSpace(c)
    ensures Fields(w + [c] + tail) == [w] + Fields(tail)
  {
    var s, rest := w + [c] + tail, [c] + tail;
    assert s == w + rest;
    HeadTail(w, rest);
    forall j | 0 <= j < |w| ensures !IsSpace(s[j]) { assert s[j] == w[j] && w[j] in w; }
    WordEndIs(s, |w|);
    SpaceSkipped(c, tail);
  }

  lemma SpaceSkipped(c: char, tail: string)
    requires IsSpace(c)
    ensures Fields([c] + tail) == Fields(tail)
  {
    HeadTail([c], tail);
  }

  lemma WordEndIs(s: string, n: nat)
    requires n <= |s| && (forall j :: 0 <= j < n ==> !IsSpace(s[j])) && (n < |s| ==> IsSpace(s[n]))
    ensures WordEnd(s) == n
  {
  }

  // ---------- lines ----------

  datatype LineError = BadSeparator | BadMountPoint | EmptyMountPoint | EmptyType

  /** Position of the first field "-", or the number of fields. */
  function Separator(fields: seq<string>): (i: nat)
    ensures i <= |fields| && "-" !in fields[..i] && (i < |fields| ==> fields[i] == "-")
  {
    if fields == [] || fields[0] == "-" then 0 else 1 + Separator(fields[1..])
  }

  lemma SeparatorIs(fields: seq<string>, n: nat)
    requires n <= |fields| && "-" !in fields[..n] && (n < |fields| ==> fields[n] == "-")
    ensures Separator(fields) == n
  {
    var k := Separator(fields);
    forall j | 0 <= j < n ensures fields[j] != "-" { assert fields[j] == fields[..n][j]; }
    forall j | 0 <= j < k ensures fields[j] != "-" { assert fields[j] == fields[..k][j]; }
  }

  /** The mount a line describes; None for a blank line. */
  function ParseLine(line: string): Result<Option<Disk.Mount>, LineError> {
    if Blank(line) then Success(None)
    else
      var fields := Fields(TrimSpace(line));
      var separator := Separator(fields);
      if separator < 6 || separator + 2 >= |fields| then Failure(BadSeparator)
      else if Decode(fields[4]).None? then Failure(BadMountPoint)
      else Success(Some(Disk.Mount(Decode(fields[4]).value, fields[separator + 1])))
  }

  /** The mounts of a table in order, or its first bad line. */
  function ParsedMounts(lines: seq<string>): Result<seq<Disk.Mount>, ParseError> {
    if lines == [] then Success([])
    else
      match ParsedMounts(lines[..|lines| - 1])
      case Failure(e) => Failure(e)
      case Success(mounts) =>
        match ParseLine(lines[|lines| - 1])
        case Failure(e) => Failure(BadLine(|lines|, e))
        case Success(None) => Success(mounts)
        case Success(Some(m)) => Success(mounts + [m])
  }

  lemma ParsedNext(lines: seq<string>, i: nat, seen: seq<Disk.Mount>)
    requires i < |lines| && ParsedMounts(lines[..i]) == Success(seen)
    ensures ParsedMounts(lines[..i + 1]) ==
      match ParseLine(lines[i])
      case Failure(e) => Failure(BadLine(i + 1, e))
      case Success(None) => Success(seen)
      case Success(Some(m)) => Success(seen + [m])
  {
    SliceMore(lines, i);
  }

  datatype ParseError = BadLine(number: nat, error: LineError) | Unread

  method FindSeparator(fields: seq<string>) returns (separator: int)
    ensures separator == if Separator(fields) < |fields| then Separator(fields) else -1
  {
    for i := 0 to |fields|
      invariant "-" !in fields[..i]
    {
      if fields[i] == "-" {
        SeparatorIs(fields, i);
        return i;
      }
    }
    SeparatorIs(fields, |fields|);
    return -1;
  }

  method ReadLine(line: string) returns (r: Result<Option<Disk.Mount>, LineError>)
    ensures r == ParseLine(line)
  {
    var text := TrimSpace(line);
    if text == "" { return Success(None); }
    var fields := Fields(text);
    FieldsAreWords(text);
    var separator := FindSeparator(fields);
    if separator < 6 || separator + 2 >= |fields| { return Failure(BadSeparator); }
    var mountPoint := DecodeField(fields[4]);
    if mountPoint.None? { return Failure(BadMountPoint); }
    assert Word(fields[4]) && Word(fields[separator + 1]);
    DecodeNotEmpty(fields[4]);
    var filesystemType := fields[separator + 1];
    if mountPoint.value == "" { return Failure(EmptyMountPoint); }
    if filesystemType == "" { return Failure(EmptyType); }
    return Success(Some(Disk.Mount(mountPoint.value, filesystemType)));
  }

  /** The whole table: real file systems only, one per mount point, in order, so that
      collecting it needs no further normalizing. */
  method ParseMountInfo(lines: seq<string>, readFails: bool) returns (r: Result<seq<Disk.Mount>, ParseError>)
    ensures ParsedMounts(lines).Failure? ==> r == Failure(ParsedMounts(lines).error)
    ensures ParsedMounts(lines).Success? ==>
      r == if readFails then Failure(Unread) else Success(Disk.Normalized(ParsedMounts(lines).value))
    ensures r.Success? ==> Disk.Normalized(r.value) == r.value
  {
    var byMountPoint: map<string, Disk.Mount> := map[];
    ghost var seen: seq<Disk.Mount> := [];
    for i := 0 to |lines|
      invariant ParsedMounts(lines[..i]) == Success(seen)
      invariant byMountPoint == Disk.FirstByPoint(seen)
    {
      ParsedNext(lines, i, seen);
      var parsed := ReadLine(lines[i]);
      if parsed.Failure? {
        FirstBadLine(lines, i + 1);
        return Failure(BadLine(i + 1, parsed.error));
      }
      if parsed.value.None? { continue; }
      var mount := parsed.value.value;
      Disk.FirstByPointMore(seen, mount);
      ReadMount(lines[i]);
      seen := seen + [mount];
      if mount.filesystemType in Disk.SKIPPED { continue; }
      if mount.mountPoint !in byMountPoint { byMountPoint := byMountPoint[mount.mountPoint := mount]; }
    }
    WholeSlice(lines);
    if readFails { return Failure(Unread); }
    Disk.FirstByPointKeyed(seen);
    var mounts := Disk.SortedMounts(byMountPoint);
    Disk.NormalizedExact(seen);
    return Success(mounts);
  }

  /** A mount read from a line has a mount point and a type. */
  lemma ReadMount(line: string)
    requires ParseLine(line).Success? && ParseLine(line).value.Some?
    ensures ParseLine(line).value.value.mountPoint != "" && ParseLine(line).value.value.filesystemType != ""
  {
    var fields := Fields(TrimSpace(line));
    FieldsAreWords(TrimSpace(line));
    assert Word(fields[4]);
    DecodeNotEmpty(fields[4]);
    assert fields[Separator(fields) + 1] in fields;
  }

  lemma {:induction false} FirstBadLine(lines: seq<string>, n: nat)
    requires n <= |lines| && ParsedMounts(lines[..n]).Failure?
    ensures ParsedMounts(lines) == ParsedMounts(lines[..n])
  {
    if n == |lines| {
      assert lines[..n] == lines;
    } else {
      var front := lines[..|lines| - 1];
      assert front[..n] == lines[..n];
      FirstBadLine(front, n);
    }
  }

  /** What a line says, field by field: at least six fields stand before the first "-" and two
      after it; the fifth is the escaped mount point and the first after the "-" the type. */
  lemma LineExactly(line: string, before: seq<string>, after: seq<string>)
    requires Fields(TrimSpace(line)) == before + ["-"] + after && "-" !in before && !Blank(line)
    ensures |before| < 6 || |after| < 2 ==> ParseLine(line) == Failure(BadSeparator)
    ensures |before| >= 6 && |after| >= 2 ==>
      ParseLine(line) == if Decode(before[4]).None? then Failure(BadMountPoint)
                         else Success(Some(Disk.Mount(Decode(before[4]).value, after[0])))
  {
    var words := before + ["-"] + after;
    assert words[..|before|] == before && words[|before|] == "-";
    SeparatorIs(words, |before|);
    if |before| >= 6 && |after| >= 2 { assert words[4] == before[4] && words[|before| + 1] == after[0]; }
  }

  /** A line without a "-" among its fields is bad, unless it is blank. */
  lemma NoSeparator(line: string)
    requires "-" !in Fields(TrimSpace(line))
    ensures ParseLine(line) == if Blank(line) then Success(None) else Failure(BadSeparator)
  {
  }

  /** Words with one space between them are the fields of the line they make. */
  lemma WordsAreFields(words: seq<string>)
    requires words != [] && forall w <- words :: Word(w)
    ensures Fields(TrimSpace(Join(words, ' '))) == words && !Blank(Join(words, ' '))
  {
    JoinTrimmed(words);
    TrimmedUnchanged(Join(words, ' '));
    FieldsOfWords(words);
  }

  /** Reading fails exactly if some line is bad, and blames the first one. */
  lemma {:induction false} ParsedExactly(lines: seq<string>)
    ensures ParsedMounts(lines).Success? <==> forall line <- lines :: ParseLine(line).Success?
    ensures ParsedMounts(lines).Failure? ==> exists i: nat :: FirstBad(lines, i, ParsedMounts(lines).error)
  {
    if lines != [] {
      var n := |lines| - 1;
      var front := lines[..n];
      FrontLast(lines);
      ParsedExactly(front);
      if ParsedMounts(front).Failure? {
        var i: nat :| FirstBad(front, i, ParsedMounts(front).error);
        assert FirstBad(lines, i, ParsedMounts(lines).error);
      } else if ParsedMounts(lines).Failure? {
        assert FirstBad(lines, n, ParsedMounts(lines).error);
      }
    }
  }

  ghost predicate FirstBad(lines: seq<string>, i: nat, error: ParseError) {
    && i < |lines| && ParseLine(lines[i]).Failure? && error == BadLine(i + 1, ParseLine(lines[i]).error)
    && forall j: nat :: j < i ==> ParseLine(lines[j]).Success?
  }

  /** The k-th mount is read from line at[k], and no other line describes one. */
  ghost predicate ReadFrom(lines: seq<string>, at: seq<nat>, mounts: seq<Disk.Mount>) {
    && |at| == |mounts| && (forall j, k :: 0 <= j < k < |at| ==> at[j] < at[k])
    && (forall k :: 0 <= k < |at| ==> at[k] < |lines| && ParseLine(lines[at[k]]) == Success(Some(mounts[k])))
    && (forall i: nat :: i < |lines| && i !in at ==> ParseLine(lines[i]) == Success(None))
  }

  /** Otherwise the mounts are those of the lines, in order. */
  lemma {:induction false} ParsedInOrder(lines: seq<string>) returns (at: seq<nat>)
    requires ParsedMounts(lines).Success?
    ensures ReadFrom(lines, at, ParsedMounts(lines).value)
  {
    at := [];
    if lines != [] {
      var front, last := lines[..|lines| - 1], lines[|lines| - 1];
      FrontLast(lines);
      at := ParsedInOrder(front);
      ReadFromMore(front, last, at, ParsedMounts(front).value);
      if ParseLine(last).value.Some? { at := at + [|front|]; }
    }
  }

  lemma ReadFromMore(lines: seq<string>, line: string, at: seq<nat>, mounts: seq<Disk.Mount>)
    requires ReadFrom(lines, at, mounts) && ParseLine(line).Success?
    ensures match ParseLine(line).value
            case None => ReadFrom(lines + [line], at, mounts)
            case Some(m) => ReadFrom(lines + [line], at + [|lines|], mounts + [m])
  {
    var all, n := lines + [line], |lines|;
    if ParseLine(line).value.Some? {
      var more := at + [n];
      forall i: nat | i <= n && i !in more ensures i < n && i !in at { assert more[|at|] == n; }
      ReadFromEach(lines, line, at, mounts, ParseLine(line).value.value);
    }
  }

  lemma ReadFromEach(lines: seq<string>, line: string, at: seq<nat>, mounts: seq<Disk.Mount>, m: Disk.Mount)
    requires ReadFrom(lines, at, mounts) && ParseLine(line) == Success(Some(m))
    ensures var all, more, found := lines + [line], at + [|lines|], mounts + [m];
      forall k :: 0 <= k < |more| ==> more[k] < |all| && ParseLine(all[more[k]]) == Success(Some(found[k]))
  {
  }

  // ---------- lines written by the kernel ----------

  /** The fields of a line: five before the mount options are fixed, the fifth is the
      escaped mount point; a type and a source follow the separator. */
  ghost predicate KernelFields(before: seq<string>, mount: Disk.Mount, after: seq<string>) {
    && |before| >= 6 && before[4] == Encode(mount.mountPoint) && mount.mountPoint != "" && "-" !in before
    && (forall i :: 0 <= i < |before| && i != 4 ==> Word(before[i]))
    && |after| >= 2 && after[0] == mount.filesystemType && (forall w <- after :: Word(w))
  }

  function KernelLine(before: seq<string>, after: seq<string>): string { Join(before + ["-"] + after, ' ') }

  /** White space the kernel does not escape. */
  predicate OddSpace(c: char) { IsSpace(c) && !Raw(c) }

  lemma {:induction false} EncodeSpaces(field: string)
    ensures (exists c :: c in Encode(field) && IsSpace(c)) <==> exists c :: c in field && OddSpace(c)
    ensures field != "" ==> Encode(field) != ""
  {
    if field != "" {
      EncodeSpaces(field[1..]);
      var e, rest := Escape(field[0]), Encode(field[1..]);
      assert forall c :: c in e + rest <==> c in e || c in rest;
      assert forall c :: c in field <==> c == field[0] || c in field[1..];
      EscapeSpaces(field[0]);
    }
  }

  lemma EscapeSpaces(c: char)
    ensures (exists x :: x in Escape(c) && IsSpace(x)) <==> OddSpace(c)
  {
    if OddSpace(c) { assert Escape(c)[0] == c; }
  }

  lemma {:induction false} JoinTrimmed(words: seq<string>)
    requires words != [] && Word(words[0]) && Word(words[|words| - 1])
    ensures Join(words, ' ') != "" && Trimmed(Join(words, ' '))
  {
    var w := words[0];
    assert w[0] in w && w[|w| - 1] in w;
    if |words| > 1 {
      JoinEnd(words);
      assert Join(words, ' ')[0] == w[0];
    }
  }

  lemma {:induction false} JoinEnd(words: seq<string>)
    requires words != [] && Word(words[|words| - 1])
    ensures Join(words, ' ') != "" && !IsSpace(Join(words, ' ')[|Join(words, ' ')| - 1])
  {
    var s, last := Join(words, ' '), words[|words| - 1];
    assert last[|last| - 1] in last;
    if |words| > 1 {
      JoinEnd(words[1..]);
      assert s == words[0] + [' '] + Join(words[1..], ' ');
    }
  }

  /** No line yields a mount point with white space other than what escapes stand for. */
  lemma PlainPoints(line: string)
    requires ParseLine(line).Success? && ParseLine(line).value.Some?
    ensures forall c <- ParseLine(line).value.value.mountPoint :: !OddSpace(c)
  {
    var fields := Fields(TrimSpace(line));
    FieldsAreWords(TrimSpace(line));
    assert Word(fields[4]);
    DecodeSources(fields[4]);
  }

  lemma LineWords(before: seq<string>, mount: Disk.Mount, after: seq<string>)
    requires KernelFields(before, mount, after) && Word(before[4])
    ensures forall w <- before + ["-"] + after :: Word(w)
  {
    var words := before + ["-"] + after;
    forall w | w in words ensures Word(w) {
      var i :| 0 <= i < |words| && words[i] == w;
      if i < |before| { assert w == before[i]; }
    }
  }

  lemma WordsRead(before: seq<string>, mount: Disk.Mount, after: seq<string>)
    requires KernelFields(before, mount, after) && Word(before[4])
    ensures ParseLine(KernelLine(before, after)) == Success(Some(mount))
  {
    var words, line := before + ["-"] + after, KernelLine(before, after);
    LineWords(before, mount, after);
    WordsAreFields(words);
    FieldsRead(before, mount, after, line);
  }

  lemma FieldsRead(before: seq<string>, mount: Disk.Mount, after: seq<string>, line: string)
    requires KernelFields(before, mount, after) && !Blank(line)
    requires Fields(TrimSpace(line)) == before + ["-"] + after
    ensures ParseLine(line) == Success(Some(mount))
  {
    LineExactly(line, before, after);
    DecodeEncode(mount.mountPoint);
  }

  /** A line written by the kernel is read back exactly when the mount point has no
      white space but spaces, tabs and newlines; with a carriage return or a
      non-breaking space in it, it is cut there. */
  lemma KernelLineRead(before: seq<string>, mount: Disk.Mount, after: seq<string>)
    requires KernelFields(before, mount, after)
    ensures ParseLine(KernelLine(before, after)) == Success(Some(mount)) <==> forall c <- mount.mountPoint ::
      !OddSpace(c)
  {
    EncodeSpaces(mount.mountPoint);
    if forall c <- mount.mountPoint :: !OddSpace(c) {
      WordsRead(before, mount, after);
    } else if ParseLine(KernelLine(before, after)) == Success(Some(mount)) {
      PlainPoints(KernelLine(before, after));
    }
  }

  /** With such white space at its end, only, the mount point is read without it. */
  lemma TrailingSpaceCut(before: seq<string>, mount: Disk.Mount, after: seq<string>, c: char)
    requires KernelFields(before, mount, after) && OddSpace(c) && forall x <- mount.mountPoint :: !OddSpace(x)
    ensures var fields := before[4 := before[4] + [c]];
      && KernelFields(fields, mount.(mountPoint := mount.mountPoint + [c]), after)
      && ParseLine(KernelLine(fields, after)) == Success(Some(mount))
  {
    FieldsLonger(before, mount, after, c);
    EncodeSpaces(mount.mountPoint);
    LineCut(before, mount, after, c);
    FieldsRead(before, mount, after, KernelLine(before[4 := before[4] + [c]], after));
  }

  lemma FieldsLonger(before: seq<string>, mount: Disk.Mount, after: seq<string>, c: char)
    requires KernelFields(before, mount, after) && OddSpace(c)
    ensures KernelFields(before[4 := before[4] + [c]], mount.(mountPoint := mount.mountPoint + [c]), after)
  {
    var fields := before[4 := before[4] + [c]];
    EncodeSnoc(mount.mountPoint, c);
    assert |fields[4]| > 1 || fields[4][0] == c;
    forall i | 0 <= i < |fields| ensures fields[i] != "-" { assert i != 4 ==> fields[i] == before[i]; }
  }

  lemma LineCut(before: seq<string>, mount: Disk.Mount, after: seq<string>, c: char)
    requires KernelFields(before, mount, after) && Word(before[4]) && IsSpace(c)
    ensures var line := KernelLine(before[4 := before[4] + [c]], after);
      !Blank(line) && Fields(TrimSpace(line)) == before + ["-"] + after
  {
    var words := before + ["-"] + after;
    LineWords(before, mount, after);
    assert before[4 := before[4] + [c]] + ["-"] + after == words[4 := words[4] + [c]];
    JoinTrimmed(words[4 := words[4] + [c]]);
    TrimmedUnchanged(KernelLine(before[4 := before[4] + [c]], after));
    FieldsCut(words, 4, c);
  }

  lemma {:induction false} EncodeSnoc(field: string, c: char)
    ensures Encode(field + [c]) == Encode(field) + Escape(c)
  {
    if field != "" {
      EncodeSnoc(field[1..], c);
      assert (field + [c])[1..] == field[1..] + [c];
    }
  }

  /** White space after a word, and before the space that follows it, is skipped. */
  lemma {:induction false} FieldsCut(words: seq<string>, i: nat, c: char)
    requires i < |words| - 1 && IsSpace(c) && forall w <- words :: Word(w)
    ensures Fields(Join(words[i := words[i] + [c]], ' ')) == words
  {
    var w, rest := words[0], words[1..];
    FirstRest(words);
    if i == 0 {
      assert words[0 := w + [c]] == [w + [c]] + rest;
      JoinMore(w + [c], rest, ' ');
      WordCut(w, c, Join(rest, ' '));
      FieldsOfWords(rest);
    } else {
      assert words[i := words[i] + [c]] == [w] + rest[i - 1 := rest[i - 1] + [c]];
      JoinMore(w, rest[i - 1 := rest[i - 1] + [c]], ' ');
      FirstWord(w, ' ', Join(rest[i - 1 := rest[i - 1] + [c]], ' '));
      FieldsCut(rest, i - 1, c);
    }
  }

  lemma WordCut(w: string, c: char, tail: string)
    requires Word(w) && IsSpace(c)
    ensures Fields(w + [c] + [' '] + tail) == [w] + Fields(tail)
  {
    assert w + [c] + [' '] + tail == w + [c] + ([' '] + tail);
    FirstWord(w, c, [' '] + tail);
    SpaceSkipped(' ', tail);
  }

  /** The fields of a short line with this escaped mount point. */
  function LineFields(point: string): seq<string> { ["1", "2", "3", "4", point, "5"] }

  /** So a mount point that ends with a carriage return loses it. */
  lemma CarriageReturnLost()
    ensures KernelFields(LineFields("/\r"), Disk.Mount("/\r", "t"), ["t", "s"])
    ensures ParseLine(KernelLine(LineFields("/\r"), ["t", "s"])) == Success(Some(Disk.Mount("/", "t")))
  {
    PlainLine();
    assert "/" + ['\r'] == "/\r";
    assert LineFields("/")[4 := "/\r"] == LineFields("/\r");
    TrailingSpaceCut(LineFields("/"), Disk.Mount("/", "t"), ["t", "s"], '\r');
  }

  lemma PlainLine()
    ensures KernelFields(LineFields("/"), Disk.Mount("/", "t"), ["t", "s"])
  {
    assert Encode("/") == "/" by { assert "/"[1..] == ""; }
    PlainWord('1');
    PlainWord('2');
    PlainWord('3');
    PlainWord('4');
    PlainWord('5');
    PlainWord('t');
    PlainWord('s');
  }

  lemma PlainWord(c: char)
    requires !IsSpace(c)
    ensures Word([c])
  {
  }
}
