/** The text of a local database record (be_local.c): what is written is read back. */
module LocalDb {
  import opened Text
  import opened Package
  import opened DepString
  import opened Numbers
  import LineReader
  import Lists
  import ListDiff
  import FileList

  // ----- lines

  const BUFFER: nat := 1023     // what one read of a 1024-byte buffer holds besides the terminator

  ghost predicate Fits(lines: seq<string>) {
    forall i :: 0 <= i < |lines| ==> |lines[i]| <= BUFFER && LineReader.NoNewline(lines[i])
  }

  /** What one read takes: a line with its newline, or as much as fits the buffer. */
  function Ended(line: string): string { if |line| == BUFFER then line else line + "\n" }

  /** The text that is read as the given lines. */
  function Buffered(lines: seq<string>): string {
    if lines == [] then "" else Ended(lines[0]) + Buffered(lines[1..])
  }

  /** How much of the text fgets takes. */
  function ReadLength(text: string): (n: nat)
    ensures n <= |text|
  {
    var k := IndexFrom(text, '\n', 0);
    var n := if k < |text| then k + 1 else k;
    if n > BUFFER then BUFFER else n
  }

  ghost predicate EndsBlank(lines: seq<string>) { lines == [] || lines[|lines| - 1] == "" }

  /** Whole lines that fit, the last of them empty. */
  ghost predicate Proper(lines: seq<string>) { Fits(lines) && EndsBlank(lines) }

  function FirstBlank(lines: seq<string>): (k: nat)
    ensures k <= |lines| && (k < |lines| ==> lines[k] == "") && forall i :: 0 <= i < k ==> lines[i] != ""
  {
    if lines == [] || lines[0] == "" then 0 else 1 + FirstBlank(lines[1..])
  }

  function Strip(s: string): (r: string)
    ensures r <= s && (r == "" || r[|r| - 1] != '\n')
  {
    if s != "" && s[|s| - 1] == '\n' then Strip(s[..|s| - 1]) else s
  }

  lemma StripLine(s: string)
    requires LineReader.NoNewline(s)
    ensures Strip(Ended(s)) == s
  {
    assert (s + "\n")[..|s|] == s;
  }

  lemma NextLine(lines: seq<string>)
    requires lines != [] && Fits(lines)
    ensures var t, n := Buffered(lines), |Ended(lines[0])|;
            && t != "" && ReadLength(t) == n && t[..n] == Ended(lines[0]) && t[n..] == Buffered(lines[1..])
            && (n < BUFFER ==> IndexFrom(t, '\n', 0) < |t|)
  {
    hide Buffered;
    var t, k := Buffered(lines), |lines[0]|;
    assert t == Ended(lines[0]) + Buffered(lines[1..]) by { BufferedStep(lines); }
    assert forall i :: 0 <= i < k ==> t[i] == lines[0][i];
    assert k < BUFFER ==> t[k] == '\n';
  }

  lemma BufferedStep(lines: seq<string>)
    requires lines != []
    ensures Buffered(lines) == Ended(lines[0]) + Buffered(lines[1..])
  {
  }

  /** An open file with the reader's line buffer. */
  class File {
    var rest: string
    var line: string
    var eof: bool

    constructor (text: string)
      ensures rest == text && line == "" && !eof
    {
      rest, line, eof := text, "", false;
    }

    /** Where the file stands: these lines are left, and the buffer holds no stale text once
        they are used up. */
    ghost predicate Sync(left: seq<string>)
      reads this
    {
      Proper(left) && rest == Buffered(left) && (left == [] ==> line == "") && (eof ==> left == [])
    }

    /** fgets into 1024 bytes; at the end of the file the buffer stays as it is. */
    method Fgets(ghost left: seq<string>) returns (ok: bool)
      modifies this
      ensures ok ==> |rest| < |old(rest)|
      ensures old(eof) ==> eof
      ensures !ok ==> eof && line == old(line) && rest == old(rest)
      ensures old(Sync(left)) ==> ok == (left != [])
      ensures old(Sync(left)) && ok ==> line == Ended(left[0]) && rest == Buffered(left[1..]) && !eof
    {
      hide Buffered, IndexFrom, LineReader.NoNewline, EndsBlank;
      ghost var synced := Sync(left);
      if left == [] {
        assert Buffered(left) == "" by { NothingLeft(); }
      } else if synced {
        NextLine(left);
      }
      if rest == "" {
        eof := true;
        return false;
      }
      var n := ReadLength(rest);
      if n < BUFFER && IndexFrom(rest, '\n', 0) == |rest| {
        eof := true;
      }
      line, rest := rest[..n], rest[n..];
      ok := true;
    }

    /** _klpm_strip_newline on the buffer. */
    method StripNewline() returns (len: nat)
      modifies this`line
      ensures line == Strip(old(line)) && len == |line|
    {
      line := Strip(line);
      len := |line|;
    }

    /** A turn of the loop over the files file: a line without its newline, or the end. */
    method NextLineOf(ghost left: seq<string>) returns (more: bool)
      modifies this
      ensures |rest| <= |old(rest)| && (more ==> |rest| < |old(rest)|)
      ensures old(Sync(left)) ==> more == (left != [])
      ensures old(Sync(left)) && more ==> line == left[0] && Sync(left[1..])
    {
      hide Buffered, Ended, Strip, LineReader.NoNewline;
      if left != [] && Sync(left) {
        StripLine(left[0]);
        ProperTail(left, 1);
      }
      more := Fgets(left);
      if more {
        var len := StripNewline();
      }
    }

    /** READ_NEXT */
    method ReadNext(ghost left: seq<string>)
      modifies this
      ensures |rest| <= |old(rest)| && (old(eof) ==> eof) && (eof || |rest| < |old(rest)|)
      ensures old(Sync(left)) && left != [] ==> line == left[0] && Sync(left[1..])
      ensures old(Sync(left)) && left == [] ==> line == "" && Sync(left)
    {
      hide Buffered, Ended, Strip, LineReader.NoNewline;
      if left != [] && Sync(left) {
        StripLine(left[0]);
        ProperTail(left, 1);
      }
      var ok := Fgets(left);
      var len := StripNewline();
    }

    /** One turn of READ_AND_STORE_ALL: a line that is not empty, or the end of the list. */
    method NextItem(ghost left: seq<string>) returns (more: bool)
      modifies this
      ensures |rest| <= |old(rest)| && (old(eof) ==> eof) && (more ==> |rest| < |old(rest)|)
      ensures old(Sync(left)) ==> more == (left != [] && left[0] != "")
      ensures old(Sync(left)) && more ==> line == left[0]
      ensures old(Sync(left)) ==> Sync(if left == [] then [] else left[1..])
    {
      hide Buffered, Ended, Strip, LineReader.NoNewline;
      if left != [] && Sync(left) {
        StripLine(left[0]);
        ProperTail(left, 1);
      }
      var ok := Fgets(left);
      if !ok {
        return false;
      }
      var len := StripNewline();
      more := len > 0;
    }

    /** READ_AND_STORE_ALL: the lines up to the next empty one. */
    method ReadAll(ghost left: seq<string>) returns (vals: seq<string>)
      modifies this
      ensures |rest| <= |old(rest)| && (old(eof) ==> eof)
      ensures old(Sync(left)) ==> vals == left[..FirstBlank(left)] && Sync(AfterBlank(left))
    {
      hide Sync, FirstBlank, AfterBlank;
      vals := [];
      ghost var synced := Sync(left);
      ghost var start := |rest|;
      assert left[0..] == left;
      while true
        invariant |rest| <= start && (old(eof) ==> eof)
        invariant synced ==> |vals| <= |left| && Sync(left[|vals|..]) && vals == left[..|vals|]
        invariant synced ==> forall i :: 0 <= i < |vals| ==> left[i] != ""
        decreases |rest|
      {
        ghost var now := if synced then left[|vals|..] else [];
        var more := NextItem(now);
        if !more {
          if synced {
            BlankIs(left, |vals|);
            assert now != [] ==> now[1..] == left[|vals| + 1..];
          }
          return;
        }
        assert synced ==> now[1..] == left[|vals| + 1..];
        vals := vals + [line];
      }
    }
  }

  /** What is left behind the next empty line. */
  function AfterBlank(lines: seq<string>): seq<string> {
    var k := FirstBlank(lines);
    if k < |lines| then lines[k + 1..] else []
  }

  lemma NothingLeft()
    ensures Buffered([]) == "" && Unlines([]) == ""
  {
  }

  lemma ProperTail(lines: seq<string>, n: nat)
    requires Proper(lines) && n <= |lines|
    ensures Proper(lines[n..]) && (n > 0 && lines[n..] == [] ==> lines[n - 1] == "")
  {
    hide LineReader.NoNewline;
  }

  lemma BlankIs(lines: seq<string>, n: nat)
    requires n <= |lines| && (n < |lines| ==> lines[n] == "") && forall i :: 0 <= i < n ==> lines[i] != ""
    ensures FirstBlank(lines) == n && AfterBlank(lines) == if n < |lines| then lines[n + 1..] else []
  {
  }

  // ----- the description

  datatype InstallReason = Explicit | Depend | Unknown

  datatype Validation = Validation(none: bool, md5: bool, sha256: bool, pgp: bool)

  /** The fields kept in the desc file. Name and version are known from the directory and only
      compared; the two dependency lists at the end are read but never written. */
  datatype Desc = Desc(name: string, version: string,
                       base: Option<string>, desc: Option<string>, url: Option<string>, arch: Option<string>,
                       packager: Option<string>, builddate: int, installdate: int, isize: int, reason: InstallReason,
                       groups: seq<string>, licenses: seq<string>, validation: Validation,
                       replaces_: seq<Dep>, depends: seq<Dep>, optdepends: seq<Dep>, conflicts: seq<Dep>, provided: seq<Dep>,
                       xdata: seq<(string, string)>, makedepends: seq<Dep>, checkdepends: seq<Dep>)

  /** A record of which only the directory has been read. */
  function Blank(name: string, version: string): Desc {
    Desc(name, version, None, None, None, None, None, 0, 0, 0, InstallReason.Explicit, [], [], Validation(false, false, false, false),
         [], [], [], [], [], [], [], [])
  }

  function ReadReason(line: string): InstallReason {
    if line == "0" then InstallReason.Explicit else if line == "1" then InstallReason.Depend else Unknown
  }

  function ReasonNumber(r: InstallReason): string {
    match r case Explicit => "0" case Depend => "1" case Unknown => "2"
  }

  function ReadValidation(v: Validation, vals: seq<string>): Validation
    decreases |vals|
  {
    if vals == [] then v
    else
      var x := vals[0];
      ReadValidation(if x == "none" then v.(none := true) else if x == "sha256" then v.(sha256 := true)
                     else if x == "pgp" then v.(pgp := true) else v, vals[1..])
  }

  function ReadDeps(vals: seq<string>): seq<Dep> { seq(|vals|, i requires 0 <= i < |vals| => DepFromString(vals[i])) }

  function ParseXdata(line: string): Option<(string, string)> {
    var k := IndexFrom(line, '=', 0);
    if k == |line| then None else Some((line[..k], line[k + 1..]))
  }

  /** All lines, or nothing if one of them does not parse. */
  function ReadXdata(vals: seq<string>): Option<seq<(string, string)>> {
    if vals == [] then Some([])
    else
      var head, tail := ParseXdata(vals[0]), ReadXdata(vals[1..]);
      if head.None? || tail.None? then None else Some([head.value] + tail.value)
  }

  predicate OneLine(key: string) {
    key in {"%NAME%", "%VERSION%", "%BASE%", "%DESC%", "%URL%", "%ARCH%", "%BUILDDATE%", "%INSTALLDATE%", "%PACKAGER%",
            "%REASON%", "%SIZE%"}
  }

  /** What a one-line key does to the record. */
  function StoreOne(i: Desc, key: string, line: string): Desc {
    if key == "%BASE%" then i.(base := Some(line))
    else if key == "%DESC%" then i.(desc := Some(line))
    else if key == "%URL%" then i.(url := Some(line))
    else if key == "%ARCH%" then i.(arch := Some(line))
    else if key == "%PACKAGER%" then i.(packager := Some(line))
    else if key == "%BUILDDATE%" then i.(builddate := ParseDate(line))
    else if key == "%INSTALLDATE%" then i.(installdate := ParseDate(line))
    else if key == "%SIZE%" then i.(isize := ParseSize(line))
    else if key == "%REASON%" then i.(reason := ReadReason(line))
    else i
  }

  /** What a key with a list does; an unknown one skips its lines. */
  function StoreAll(i: Desc, key: string, vals: seq<string>): Option<Desc> {
    if key == "%GROUPS%" then Some(i.(groups := i.groups + vals))
    else if key == "%LICENSE%" then Some(i.(licenses := i.licenses + vals))
    else if key == "%VALIDATION%" then Some(i.(validation := ReadValidation(i.validation, vals)))
    else if key == "%REPLACES%" then Some(i.(replaces_ := i.replaces_ + ReadDeps(vals)))
    else if key == "%DEPENDS%" then Some(i.(depends := i.depends + ReadDeps(vals)))
    else if key == "%OPTDEPENDS%" then Some(i.(optdepends := i.optdepends + ReadDeps(vals)))
    else if key == "%MAKEDEPENDS%" then Some(i.(makedepends := i.makedepends + ReadDeps(vals)))
    else if key == "%CHECKDEPENDS%" then Some(i.(checkdepends := i.checkdepends + ReadDeps(vals)))
    else if key == "%CONFLICTS%" then Some(i.(conflicts := i.conflicts + ReadDeps(vals)))
    else if key == "%PROVIDES%" then Some(i.(provided := i.provided + ReadDeps(vals)))
    else if key == "%XDATA%" then
      var x := ReadXdata(vals);
      if x.None? then None else Some(i.(xdata := i.xdata + x.value))
    else Some(i)
  }

  /** The record after the given lines, or nothing after an error. */
  function ReadLines(i: Desc, lines: seq<string>): Option<Desc>
    decreases |lines|
  {
    if lines == [] then Some(i)
    else if lines[0] == "" then ReadLines(i, lines[1..])
    else if OneLine(lines[0]) then
      if |lines| == 1 then None else ReadLines(StoreOne(i, lines[0], lines[1]), lines[2..])
    else
      var k := FirstBlank(lines[1..]);
      var r := StoreAll(i, lines[0], lines[1..][..k]);
      if r.None? then None else ReadLines(r.value, AfterBlank(lines[1..]))
  }

  /** The desc part of local_db_read. On whole lines that fit the buffer and end in an empty
      one, the result is that of the lines. */
  method ReadDesc(text: string, name: string, version: string, ghost lines: seq<string>) returns (r: Option<Desc>)
    ensures text == Buffered(lines) && Proper(lines) ==> r == ReadLines(Blank(name, version), lines)
  {
    hide Buffered, StoreOne, StoreAll, Proper, FirstBlank, AfterBlank, OneLine;
    var fp := new File(text);
    var info := Blank(name, version);
    ghost var left := lines;
    ghost var synced := text == Buffered(lines) && Proper(lines);
    while !fp.eof
      invariant fresh(fp)
      invariant synced ==> fp.Sync(left) && ReadLines(Blank(name, version), lines) == ReadLines(info, left)
      decreases |fp.rest| + if fp.eof then 0 else 1
    {
      if synced && left != [] { ProperTail(left, 1); }
      fp.ReadNext(left);
      var key := fp.line;
      if key == "" {
        left := if left == [] then [] else left[1..];
        continue;
      }
      ghost var after := if left == [] then [] else left[1..];
      if OneLine(key) {
        fp.ReadNext(after);
        info := StoreOne(info, key, fp.line);
        left := if after == [] then [] else after[1..];
      } else {
        var vals := fp.ReadAll(after);
        var next := StoreAll(info, key, vals);
        if next.None? {
          return None;
        }
        info := next.value;
        left := AfterBlank(after);
      }
    }
    r := Some(info);
  }

  // ----- what each key means

  lemma OneKey(i: Desc, key: string, v: string)
    requires OneLine(key) && key != ""
    ensures ReadLines(i, [key, v, ""]) == Some(StoreOne(i, key, v))
  {
    hide OneLine, StoreOne;
    var lines := [key, v, ""];
    assert lines[2..] == [""] && [""][1..] == [];
  }

  /** The one-line keys with text, whatever the line says. */
  lemma OneLineKeys(i: Desc, v: string)
    ensures ReadLines(i, ["%BASE%", v, ""]) == Some(i.(base := Some(v)))
    ensures ReadLines(i, ["%DESC%", v, ""]) == Some(i.(desc := Some(v)))
    ensures ReadLines(i, ["%URL%", v, ""]) == Some(i.(url := Some(v)))
    ensures ReadLines(i, ["%ARCH%", v, ""]) == Some(i.(arch := Some(v)))
    ensures ReadLines(i, ["%PACKAGER%", v, ""]) == Some(i.(packager := Some(v)))
    ensures ReadLines(i, ["%NAME%", v, ""]) == Some(i) && ReadLines(i, ["%VERSION%", v, ""]) == Some(i)
  {
    hide ReadLines, ParseDate, ParseSize;
    OneKey(i, "%NAME%", v);
    OneKey(i, "%VERSION%", v);
    OneKey(i, "%BASE%", v);
    OneKey(i, "%DESC%", v);
    OneKey(i, "%URL%", v);
    OneKey(i, "%ARCH%", v);
    OneKey(i, "%PACKAGER%", v);
  }

  /** The one-line keys with numbers; a reason other than 0 and 1 is unknown. */
  lemma NumberKeys(i: Desc, v: string)
    ensures ReadLines(i, ["%BUILDDATE%", v, ""]) == Some(i.(builddate := ParseDate(v)))
    ensures ReadLines(i, ["%INSTALLDATE%", v, ""]) == Some(i.(installdate := ParseDate(v)))
    ensures ReadLines(i, ["%SIZE%", v, ""]) == Some(i.(isize := ParseSize(v)))
    ensures ReadLines(i, ["%REASON%", "0", ""]) == Some(i.(reason := InstallReason.Explicit))
    ensures ReadLines(i, ["%REASON%", "1", ""]) == Some(i.(reason := InstallReason.Depend))
    ensures v != "0" && v != "1" ==> ReadLines(i, ["%REASON%", v, ""]) == Some(i.(reason := Unknown))
  {
    hide ReadLines, ParseDate, ParseSize;
    OneKey(i, "%BUILDDATE%", v);
    OneKey(i, "%INSTALLDATE%", v);
    OneKey(i, "%SIZE%", v);
    OneKey(i, "%REASON%", v);
    OneKey(i, "%REASON%", "0");
    OneKey(i, "%REASON%", "1");
  }

  lemma ListKey(i: Desc, key: string, vals: seq<string>)
    requires !OneLine(key) && key != "" && forall k :: 0 <= k < |vals| ==> vals[k] != ""
    ensures ReadLines(i, [key] + vals + [""]) == StoreAll(i, key, vals)
  {
    hide OneLine, StoreAll;
    var lines, tail := [key] + vals + [""], vals + [""];
    assert lines[1..] == tail;
    BlankIs(tail, |vals|);
    assert tail[..|vals|] == vals && tail[|vals| + 1..] == [];
  }

  /** The keys with lists, whatever their lines say; an unknown key changes nothing. */
  lemma ListKeys(i: Desc, vals: seq<string>, other: string)
    requires forall k :: 0 <= k < |vals| ==> vals[k] != ""
    ensures ReadLines(i, ["%GROUPS%"] + vals + [""]) == Some(i.(groups := i.groups + vals))
    ensures ReadLines(i, ["%LICENSE%"] + vals + [""]) == Some(i.(licenses := i.licenses + vals))
    ensures ReadLines(i, ["%REPLACES%"] + vals + [""]) == Some(i.(replaces_ := i.replaces_ + ReadDeps(vals)))
    ensures ReadLines(i, ["%DEPENDS%"] + vals + [""]) == Some(i.(depends := i.depends + ReadDeps(vals)))
    ensures ReadLines(i, ["%OPTDEPENDS%"] + vals + [""]) == Some(i.(optdepends := i.optdepends + ReadDeps(vals)))
    ensures ReadLines(i, ["%MAKEDEPENDS%"] + vals + [""]) == Some(i.(makedepends := i.makedepends + ReadDeps(vals)))
    ensures ReadLines(i, ["%CHECKDEPENDS%"] + vals + [""]) == Some(i.(checkdepends := i.checkdepends + ReadDeps(vals)))
    ensures ReadLines(i, ["%CONFLICTS%"] + vals + [""]) == Some(i.(conflicts := i.conflicts + ReadDeps(vals)))
    ensures ReadLines(i, ["%PROVIDES%"] + vals + [""]) == Some(i.(provided := i.provided + ReadDeps(vals)))
    ensures !OneLine(other) && !ListName(other) && other != "" ==> ReadLines(i, [other] + vals + [""]) == Some(i)
  {
    hide ReadLines, ReadDeps, ReadXdata, ReadValidation;
    ListKey(i, "%GROUPS%", vals);
    ListKey(i, "%LICENSE%", vals);
    ListKey(i, "%REPLACES%", vals);
    ListKey(i, "%DEPENDS%", vals);
    ListKey(i, "%OPTDEPENDS%", vals);
    ListKey(i, "%MAKEDEPENDS%", vals);
    ListKey(i, "%CHECKDEPENDS%", vals);
    ListKey(i, "%CONFLICTS%", vals);
    ListKey(i, "%PROVIDES%", vals);
    if !OneLine(other) && other != "" { ListKey(i, other, vals); }
  }

  ghost predicate ListName(key: string) {
    key in {"%GROUPS%", "%LICENSE%", "%VALIDATION%", "%REPLACES%", "%DEPENDS%", "%OPTDEPENDS%", "%MAKEDEPENDS%",
            "%CHECKDEPENDS%", "%CONFLICTS%", "%PROVIDES%", "%XDATA%"}
  }

  /** The flags of a validation. */
  lemma ValidationKey(i: Desc)
    ensures ReadLines(i, ["%VALIDATION%", "none", ""]) == Some(i.(validation := i.validation.(none := true)))
    ensures ReadLines(i, ["%VALIDATION%", "sha256", ""]) == Some(i.(validation := i.validation.(sha256 := true)))
    ensures ReadLines(i, ["%VALIDATION%", "pgp", ""]) == Some(i.(validation := i.validation.(pgp := true)))
  {
    hide ReadLines;
    OneValue(i, "%VALIDATION%", "none");
    OneValue(i, "%VALIDATION%", "sha256");
    OneValue(i, "%VALIDATION%", "pgp");
    assert ["none"][1..] == ["sha256"][1..] == ["pgp"][1..] == [];
  }

  /** A pair of extra data. */
  lemma XdataKey(i: Desc, name: string, value: string)
    requires Lacks(name, '=')
    ensures ReadLines(i, ["%XDATA%", name + "=" + value, ""]) == Some(i.(xdata := i.xdata + [(name, value)]))
  {
    hide ReadLines, IndexFrom;
    var line := name + "=" + value;
    OneValue(i, "%XDATA%", line);
    PairParsed(name, value);
    assert [line][1..] == [];
    assert ReadXdata([line]) == Some([(name, value)]) by { assert [(name, value)] + [] == [(name, value)]; }
  }

  lemma PairParsed(name: string, value: string)
    requires Lacks(name, '=')
    ensures ParseXdata(name + "=" + value) == Some((name, value))
  {
    hide IndexFrom;
    var line := name + ("=" + value);
    assert line == name + "=" + value;
    FindsChar(name, "=" + value, '=');
    assert line[..|name|] == name && line[|name| + 1..] == value;
  }

  lemma OneValue(i: Desc, key: string, v: string)
    requires !OneLine(key) && key != "" && v != ""
    ensures ReadLines(i, [key, v, ""]) == StoreAll(i, key, [v])
  {
    hide OneLine, StoreAll, ReadLines;
    ListKey(i, key, [v]);
    assert [key] + [v] + [""] == [key, v, ""];
  }

  // ----- writing

  /** A key, its lines and an empty line. */
  datatype Section = Section(key: string, vals: seq<string>)

  function LinesOf(secs: seq<Section>): seq<string> {
    if secs == [] then [] else [secs[0].key] + secs[0].vals + [""] + LinesOf(secs[1..])
  }

  function TextOf(secs: seq<Section>): string { Unlines(LinesOf(secs)) }

  lemma {:induction false} LinesAppend(a: seq<Section>, b: seq<Section>)
    ensures LinesOf(a + b) == LinesOf(a) + LinesOf(b)
    decreases |a|
  {
    if a == [] {
      assert a + b == b;
    } else {
      LinesAppend(a[1..], b);
      assert (a + b)[1..] == a[1..] + b;
    }
  }

  lemma TextAppend(a: seq<Section>, b: seq<Section>)
    ensures TextOf(a + b) == TextOf(a) + TextOf(b)
  {
    LinesAppend(a, b);
    UnlinesAppend(LinesOf(a), LinesOf(b));
  }

  function Opt(key: string, o: Option<string>): seq<Section> { if o.Some? then [Section(key, [o.value])] else [] }

  function Num(key: string, n: int): seq<Section> { if n != 0 then [Section(key, [PrintInt(n)])] else [] }

  function Many(key: string, vals: seq<string>): seq<Section> { if vals != [] then [Section(key, vals)] else [] }

  function DepTexts(deps: seq<Dep>): seq<string> { seq(|deps|, i requires 0 <= i < |deps| => DepToString(deps[i])) }

  function XdataText(x: (string, string)): string { x.0 + "=" + x.1 }

  function XdataTexts(xs: seq<(string, string)>): seq<string> {
    seq(|xs|, i requires 0 <= i < |xs| => XdataText(xs[i]))
  }

  function ValidationTexts(v: Validation): seq<string> {
    (if v.none then ["none"] else []) + (if v.sha256 then ["sha256"] else []) + if v.pgp then ["pgp"] else []
  }

  function Names(i: Desc): seq<Section> {
    [Section("%NAME%", [i.name]), Section("%VERSION%", [i.version])] + Opt("%BASE%", i.base) + Opt("%DESC%", i.desc)
    + Opt("%URL%", i.url) + Opt("%ARCH%", i.arch)
  }

  function Facts(i: Desc): seq<Section> {
    Num("%BUILDDATE%", i.builddate) + Num("%INSTALLDATE%", i.installdate) + Opt("%PACKAGER%", i.packager)
    + Num("%SIZE%", i.isize) + Opt("%REASON%", if i.reason.Explicit? then None else Some(ReasonNumber(i.reason)))
  }

  function Groups(i: Desc): seq<Section> {
    Many("%GROUPS%", i.groups) + Many("%LICENSE%", i.licenses)
    + if i.validation == Validation(false, false, false, false) then []
      else [Section("%VALIDATION%", ValidationTexts(i.validation))]
  }

  function Relations(i: Desc): seq<Section> {
    Many("%REPLACES%", DepTexts(i.replaces_)) + Many("%DEPENDS%", DepTexts(i.depends))
    + Many("%OPTDEPENDS%", DepTexts(i.optdepends)) + Many("%CONFLICTS%", DepTexts(i.conflicts))
    + Many("%PROVIDES%", DepTexts(i.provided)) + Many("%XDATA%", XdataTexts(i.xdata))
  }

  function Sections(i: Desc): seq<Section> { Names(i) + Facts(i) + Groups(i) + Relations(i) }

  method WriteOpt(key: string, o: Option<string>) returns (out: string)
    ensures out == TextOf(Opt(key, o))
  {
    out := "";
    if o.Some? {
      out := key + "\n" + o.value + "\n\n";
      OneSection(key, [o.value]);
    }
  }

  method WriteNum(key: string, n: int) returns (out: string)
    ensures out == TextOf(Num(key, n))
  {
    out := "";
    if n != 0 {
      out := key + "\n" + PrintInt(n) + "\n\n";
      OneSection(key, [PrintInt(n)]);
    }
  }

  lemma OneSection(key: string, vals: seq<string>)
    ensures TextOf([Section(key, vals)]) == key + "\n" + Unlines(vals) + "\n"
    ensures |vals| == 1 ==> Unlines(vals) == vals[0] + "\n"
  {
    hide Unlines, LinesOf;
    OneSectionLines(key, vals);
    UnlinesCons(key, vals + [""]);
    UnlinesAppend(vals, [""]);
    OneUnline("");
    var t := Unlines(vals);
    assert key + "\n" + (t + "\n") == key + "\n" + t + "\n";
    if |vals| == 1 {
      OneUnline(vals[0]);
      assert vals == [vals[0]];
    }
  }

  lemma OneSectionLines(key: string, vals: seq<string>)
    ensures LinesOf([Section(key, vals)]) == [key] + (vals + [""])
  {
    var secs := [Section(key, vals)];
    assert LinesOf(secs[1..]) == [];
  }

  lemma OneUnline(x: string)
    ensures Unlines([x]) == x + "\n"
  {
    assert [x][1..] == [];
    NothingLeft();
  }

  lemma UnlinesCons(x: string, rest: seq<string>)
    ensures Unlines([x] + rest) == x + "\n" + Unlines(rest)
  {
    assert ([x] + rest)[1..] == rest;
  }

  method WriteLines(key: string, vals: seq<string>) returns (out: string)
    ensures out == TextOf([Section(key, vals)])
  {
    hide Unlines;
    out := key + "\n";
    NothingLeft();
    ghost var head := out;
    for i := 0 to |vals|
      invariant out == head + Unlines(vals[..i])
    {
      OneMoreLine(vals, i);
      out := out + vals[i];
      out := out + "\n";
    }
    assert vals[..|vals|] == vals;
    out := out + "\n";
    OneSection(key, vals);
  }

  lemma OneMoreLine(vals: seq<string>, i: nat)
    requires i < |vals|
    ensures Unlines(vals[..i + 1]) == Unlines(vals[..i]) + vals[i] + "\n"
  {
    assert vals[..i + 1] == vals[..i] + [vals[i]];
    UnlinesAppend(vals[..i], [vals[i]]);
    assert [vals[i]][1..] == [];
    NothingLeft();
  }

  method WriteMany(key: string, vals: seq<string>) returns (out: string)
    ensures out == TextOf(Many(key, vals))
  {
    out := "";
    if vals != [] {
      out := WriteLines(key, vals);
    }
  }

  /** write_deps */
  method WriteDeps(header: string, deplist: seq<Dep>) returns (out: string)
    ensures out == TextOf(Many(header, DepTexts(deplist)))
  {
    hide Unlines, DepToString;
    NothingLeft();
    if deplist == [] {
      return "";
    }
    ghost var texts := DepTexts(deplist);
    out := header + "\n";
    ghost var head := out;
    for i := 0 to |deplist|
      invariant out == head + Unlines(texts[..i])
    {
      OneMoreLine(texts, i);
      out := out + DepToString(deplist[i]);
      out := out + "\n";
    }
    assert texts[..|texts|] == texts;
    out := out + "\n";
    OneSection(header, texts);
  }

  /** Puts one more piece behind the text. */
  method Append(text: string, piece: string, ghost secs: seq<Section>, ghost more: seq<Section>) returns (out: string)
    requires text == TextOf(secs) && piece == TextOf(more)
    ensures out == TextOf(secs + more)
  {
    TextAppend(secs, more);
    out := text + piece;
  }

  method WriteNames(i: Desc) returns (out: string)
    ensures out == TextOf(Names(i))
  {
    hide TextOf;
    var piece := WriteLines("%NAME%", [i.name]);
    out := piece;
    ghost var secs := [Section("%NAME%", [i.name])];
    piece := WriteLines("%VERSION%", [i.version]);
    out := Append(out, piece, secs, [Section("%VERSION%", [i.version])]);
    secs := secs + [Section("%VERSION%", [i.version])];
    piece := WriteOpt("%BASE%", i.base);
    out := Append(out, piece, secs, Opt("%BASE%", i.base));
    secs := secs + Opt("%BASE%", i.base);
    piece := WriteOpt("%DESC%", i.desc);
    out := Append(out, piece, secs, Opt("%DESC%", i.desc));
    secs := secs + Opt("%DESC%", i.desc);
    piece := WriteOpt("%URL%", i.url);
    out := Append(out, piece, secs, Opt("%URL%", i.url));
    secs := secs + Opt("%URL%", i.url);
    piece := WriteOpt("%ARCH%", i.arch);
    out := Append(out, piece, secs, Opt("%ARCH%", i.arch));
    assert [Section("%NAME%", [i.name])] + [Section("%VERSION%", [i.version])] == [Section("%NAME%", [i.name]), Section("%VERSION%", [i.version])];
  }

  method WriteFacts(i: Desc) returns (out: string)
    ensures out == TextOf(Facts(i))
  {
    hide TextOf, Num, Opt;
    var piece;
    out := WriteNum("%BUILDDATE%", i.builddate);
    ghost var secs := Num("%BUILDDATE%", i.builddate);
    piece := WriteNum("%INSTALLDATE%", i.installdate);
    out := Append(out, piece, secs, Num("%INSTALLDATE%", i.installdate));
    secs := secs + Num("%INSTALLDATE%", i.installdate);
    piece := WriteOpt("%PACKAGER%", i.packager);
    out := Append(out, piece, secs, Opt("%PACKAGER%", i.packager));
    secs := secs + Opt("%PACKAGER%", i.packager);
    piece := WriteNum("%SIZE%", i.isize);
    out := Append(out, piece, secs, Num("%SIZE%", i.isize));
    secs := secs + Num("%SIZE%", i.isize);
    var reason := if i.reason.Explicit? then None else Some(ReasonNumber(i.reason));
    piece := WriteOpt("%REASON%", reason);
    out := Append(out, piece, secs, Opt("%REASON%", reason));
  }

  method WriteGroups(i: Desc) returns (out: string)
    ensures out == TextOf(Groups(i))
  {
    hide TextOf, Many, ValidationTexts;
    var piece;
    out := WriteMany("%GROUPS%", i.groups);
    ghost var secs := Many("%GROUPS%", i.groups);
    piece := WriteMany("%LICENSE%", i.licenses);
    out := Append(out, piece, secs, Many("%LICENSE%", i.licenses));
    secs := secs + Many("%LICENSE%", i.licenses);
    if i.validation != Validation(false, false, false, false) {
      piece := WriteLines("%VALIDATION%", ValidationTexts(i.validation));
      out := Append(out, piece, secs, [Section("%VALIDATION%", ValidationTexts(i.validation))]);
    } else {
      assert secs + [] == secs;
    }
  }

  method WriteRelations(i: Desc) returns (out: string)
    ensures out == TextOf(Relations(i))
  {
    hide TextOf, Many, DepTexts, XdataTexts;
    var piece;
    out := WriteDeps("%REPLACES%", i.replaces_);
    ghost var secs := Many("%REPLACES%", DepTexts(i.replaces_));
    piece := WriteDeps("%DEPENDS%", i.depends);
    out := Append(out, piece, secs, Many("%DEPENDS%", DepTexts(i.depends)));
    secs := secs + Many("%DEPENDS%", DepTexts(i.depends));
    piece := WriteDeps("%OPTDEPENDS%", i.optdepends);
    out := Append(out, piece, secs, Many("%OPTDEPENDS%", DepTexts(i.optdepends)));
    secs := secs + Many("%OPTDEPENDS%", DepTexts(i.optdepends));
    piece := WriteDeps("%CONFLICTS%", i.conflicts);
    out := Append(out, piece, secs, Many("%CONFLICTS%", DepTexts(i.conflicts)));
    secs := secs + Many("%CONFLICTS%", DepTexts(i.conflicts));
    piece := WriteDeps("%PROVIDES%", i.provided);
    out := Append(out, piece, secs, Many("%PROVIDES%", DepTexts(i.provided)));
    secs := secs + Many("%PROVIDES%", DepTexts(i.provided));
    piece := WriteMany("%XDATA%", XdataTexts(i.xdata));
    out := Append(out, piece, secs, Many("%XDATA%", XdataTexts(i.xdata)));
  }

  /** The desc part of _klpm_local_db_write. */
  method WriteDesc(i: Desc) returns (out: string)
    ensures out == TextOf(Sections(i))
  {
    hide TextOf, Names, Facts, Groups, Relations;
    var piece;
    out := WriteNames(i);
    piece := WriteFacts(i);
    out := Append(out, piece, Names(i), Facts(i));
    piece := WriteGroups(i);
    out := Append(out, piece, Names(i) + Facts(i), Groups(i));
    piece := WriteRelations(i);
    out := Append(out, piece, Names(i) + Facts(i) + Groups(i), Relations(i));
  }

  // ----- reading back

  function Store(i: Desc, s: Section): Option<Desc> {
    if !OneLine(s.key) then StoreAll(i, s.key, s.vals)
    else if |s.vals| == 1 then Some(StoreOne(i, s.key, s.vals[0]))
    else None
  }

  function Apply(i: Desc, secs: seq<Section>): Option<Desc>
    decreases |secs|
  {
    if secs == [] then Some(i)
    else
      var r := Store(i, secs[0]);
      if r.None? then None else Apply(r.value, secs[1..])
  }

  /** A section as the reader can take it apart again. */
  ghost predicate Clean(s: Section) {
    && s.key != "" && |s.key| < BUFFER && LineReader.NoNewline(s.key)
    && Fits(s.vals) && (forall k :: 0 <= k < |s.vals| - 1 ==> |s.vals[k]| < BUFFER)
    && if OneLine(s.key) then |s.vals| == 1 else forall k :: 0 <= k < |s.vals| ==> s.vals[k] != ""
  }

  /** A last value that fills the buffer leaves its newline for a read of its own. */
  function Extra(s: Section): seq<string> {
    if s.vals != [] && |s.vals[|s.vals| - 1]| == BUFFER then [""] else []
  }

  /** The lines as they are read. */
  function ReadsOf(secs: seq<Section>): seq<string> {
    if secs == [] then [] else ([secs[0].key] + secs[0].vals + [""]) + (Extra(secs[0]) + ReadsOf(secs[1..]))
  }

  lemma {:induction false} SectionsRead(i: Desc, secs: seq<Section>)
    requires forall k :: 0 <= k < |secs| ==> Clean(secs[k])
    ensures ReadLines(i, ReadsOf(secs)) == Apply(i, secs)
    decreases |secs|
  {
    hide Fits, LineReader.NoNewline, StoreOne, StoreAll, OneLine, Clean, Apply, ReadLines, ReadsOf, Extra;
    if secs == [] {
      NoSections(i);
    } else {
      SectionRead(i, secs[0], Extra(secs[0]) + ReadsOf(secs[1..]));
      SectionSteps(i, secs);
      var r := Store(i, secs[0]);
      if r.Some? {
        SkipExtra(r.value, secs[0], ReadsOf(secs[1..]));
        SectionsRead(r.value, secs[1..]);
      }
    }
  }

  lemma SkipExtra(i: Desc, s: Section, rest: seq<string>)
    ensures ReadLines(i, Extra(s) + rest) == ReadLines(i, rest)
  {
    assert ([""] + rest)[1..] == rest && [] + rest == rest;
  }

  lemma NoSections(i: Desc)
    ensures ReadLines(i, ReadsOf([])) == Apply(i, [])
  {
  }

  lemma SectionSteps(i: Desc, secs: seq<Section>)
    requires secs != []
    ensures ReadsOf(secs) == [secs[0].key] + secs[0].vals + [""] + (Extra(secs[0]) + ReadsOf(secs[1..]))
    ensures Store(i, secs[0]).Some? ==> Apply(i, secs) == Apply(Store(i, secs[0]).value, secs[1..])
    ensures Store(i, secs[0]).None? ==> Apply(i, secs) == None
  {
    hide Store;
  }

  lemma SectionRead(i: Desc, s: Section, rest: seq<string>)
    requires Clean(s)
    ensures ReadLines(i, [s.key] + s.vals + [""] + rest) ==
            if Store(i, s).None? then None else ReadLines(Store(i, s).value, rest)
  {
    hide Fits, LineReader.NoNewline, StoreOne, StoreAll, OneLine;
    var lines := [s.key] + s.vals + [""] + rest;
    var tail := s.vals + [""] + rest;
    assert lines[1..] == tail;
    if OneLine(s.key) {
      assert lines[2..] == [""] + rest && ([""] + rest)[1..] == rest;
    } else {
      BlankIs(tail, |s.vals|);
      assert tail[..|s.vals|] == s.vals && tail[|s.vals| + 1..] == rest;
    }
  }

  lemma {:induction false} ApplyAppend(i: Desc, a: seq<Section>, b: seq<Section>)
    ensures Apply(i, a + b) == if Apply(i, a).None? then None else Apply(Apply(i, a).value, b)
    decreases |a|
  {
    hide Store;
    if a == [] {
      assert a + b == b;
    } else {
      assert (a + b)[1..] == a[1..] + b;
      if Store(i, a[0]).Some? {
        ApplyAppend(Store(i, a[0]).value, a[1..], b);
      }
    }
  }

  lemma ApplyOne(i: Desc, s: Section)
    ensures Apply(i, [s]) == Store(i, s) && Apply(i, []) == Some(i)
  {
    hide Store;
    assert [s][1..] == [];
  }

  /** a changes i to j, then b changes j to k. */
  lemma Then(i: Desc, a: seq<Section>, j: Desc, b: seq<Section>, k: Desc)
    requires Apply(i, a) == Some(j) && Apply(j, b) == Some(k)
    ensures Apply(i, a + b) == Some(k)
  {
    hide Apply;
    ApplyAppend(i, a, b);
  }

  lemma OptRead(i: Desc, key: string, o: Option<string>)
    requires OneLine(key)
    ensures Apply(i, Opt(key, o)) == Some(if o.Some? then StoreOne(i, key, o.value) else i)
  {
    hide StoreOne, StoreAll, OneLine, Apply;
    ApplyOne(i, Section(key, if o.Some? then [o.value] else []));
  }

  lemma ManyRead(i: Desc, key: string, vals: seq<string>)
    requires !OneLine(key)
    ensures Apply(i, Many(key, vals)) == if vals != [] then StoreAll(i, key, vals) else Some(i)
  {
    hide StoreOne, StoreAll, OneLine, Apply;
    ApplyOne(i, Section(key, vals));
  }

  lemma NamesRead(i: Desc, d: Desc)
    requires i == Blank(d.name, d.version)
    ensures Apply(i, Names(d)) == Some(i.(base := d.base, desc := d.desc, url := d.url, arch := d.arch))
  {
    hide Apply, Opt;
    var a := [Section("%NAME%", [d.name]), Section("%VERSION%", [d.version])];
    ApplyOne(i, a[0]);
    ApplyOne(i, a[1]);
    assert a == [a[0]] + [a[1]];
    Then(i, [a[0]], i, [a[1]], i);
    var i1 := i.(base := d.base);
    var i2 := i1.(desc := d.desc);
    var i3 := i2.(url := d.url);
    OptRead(i, "%BASE%", d.base);
    Then(i, a, i, Opt("%BASE%", d.base), i1);
    OptRead(i1, "%DESC%", d.desc);
    Then(i, a + Opt("%BASE%", d.base), i1, Opt("%DESC%", d.desc), i2);
    OptRead(i2, "%URL%", d.url);
    Then(i, a + Opt("%BASE%", d.base) + Opt("%DESC%", d.desc), i2, Opt("%URL%", d.url), i3);
    OptRead(i3, "%ARCH%", d.arch);
    Then(i, a + Opt("%BASE%", d.base) + Opt("%DESC%", d.desc) + Opt("%URL%", d.url), i3, Opt("%ARCH%", d.arch), i3.(arch := d.arch));
  }

  /** Dates and size are 64-bit numbers. */
  ghost predicate Numeric(d: Desc) {
    && -INT64 <= d.builddate < INT64 && -INT64 <= d.installdate < INT64 && -INT64 <= d.isize < INT64
  }

  lemma DateRead(i: Desc, key: string, n: int)
    requires key == "%BUILDDATE%" || key == "%INSTALLDATE%"
    requires -INT64 <= n < INT64
    ensures Apply(i, Num(key, n)) == Some(if n == 0 then i else if key == "%BUILDDATE%" then i.(builddate := n) else i.(installdate := n))
  {
    hide Apply, PrintInt, ParseDate;
    ApplyOne(i, Section(key, [PrintInt(n)]));
    DateRoundTrip(n);
  }

  lemma SizeRead(i: Desc, n: int)
    ensures Apply(i, Num("%SIZE%", n)) == Some(if n == 0 then i else i.(isize := ParseSize(PrintInt(n))))
  {
    hide Apply, PrintInt, ParseSize;
    ApplyOne(i, Section("%SIZE%", [PrintInt(n)]));
  }

  /** What a size is after its trip through text. */
  function RereadSize(n: int): int { if n == 0 then 0 else ParseSize(PrintInt(n)) }

  lemma FactsRead(i: Desc, d: Desc)
    requires Numeric(d) && i.builddate == i.installdate == i.isize == 0 && i.packager == None && i.reason.Explicit?
    ensures Apply(i, Facts(d)) == Some(i.(builddate := d.builddate, installdate := d.installdate, packager := d.packager,
                                          isize := RereadSize(d.isize), reason := d.reason))
  {
    hide Apply, Opt, Num, ParseSize, PrintInt;
    var i1 := i.(builddate := d.builddate);
    var i2 := i1.(installdate := d.installdate);
    var i3 := i2.(packager := d.packager);
    var i4 := i3.(isize := RereadSize(d.isize));
    var reason := if d.reason.Explicit? then None else Some(ReasonNumber(d.reason));
    DateRead(i, "%BUILDDATE%", d.builddate);
    DateRead(i1, "%INSTALLDATE%", d.installdate);
    var a := Num("%BUILDDATE%", d.builddate) + Num("%INSTALLDATE%", d.installdate);
    Then(i, Num("%BUILDDATE%", d.builddate), i1, Num("%INSTALLDATE%", d.installdate), i2);
    OptRead(i2, "%PACKAGER%", d.packager);
    Then(i, a, i2, Opt("%PACKAGER%", d.packager), i3);
    SizeRead(i3, d.isize);
    Then(i, a + Opt("%PACKAGER%", d.packager), i3, Num("%SIZE%", d.isize), i4);
    OptRead(i4, "%REASON%", reason);
    Then(i, a + Opt("%PACKAGER%", d.packager) + Num("%SIZE%", d.isize), i4, Opt("%REASON%", reason), i4.(reason := d.reason));
  }

  lemma ValidationRead(v: Validation)
    ensures ReadValidation(Validation(false, false, false, false), ValidationTexts(v)) == v.(md5 := false)
  {
    var none := Validation(false, false, false, false);
    var a := if v.none then ["none"] else [];
    var b := if v.sha256 then ["sha256"] else [];
    var c := if v.pgp then ["pgp"] else [];
    ReadValidationAppend(none, a + b, c);
    ReadValidationAppend(none, a, b);
  }

  lemma {:induction false} ReadValidationAppend(v: Validation, a: seq<string>, b: seq<string>)
    ensures ReadValidation(v, a + b) == ReadValidation(ReadValidation(v, a), b)
    decreases |a|
  {
    if a == [] {
      assert a + b == b;
    } else {
      assert (a + b)[1..] == a[1..] + b;
      var x := a[0];
      ReadValidationAppend(if x == "none" then v.(none := true) else if x == "sha256" then v.(sha256 := true)
                           else if x == "pgp" then v.(pgp := true) else v, a[1..], b);
    }
  }

  lemma GroupsRead(i: Desc, d: Desc)
    requires i.groups == i.licenses == [] && i.validation == Validation(false, false, false, false)
    ensures Apply(i, Groups(d)) ==
            Some(i.(groups := d.groups, licenses := d.licenses, validation := d.validation.(md5 := false)))
  {
    hide Apply, Many, ValidationTexts, ReadValidation;
    var i1 := i.(groups := d.groups);
    var i2 := i1.(licenses := d.licenses);
    ManyRead(i, "%GROUPS%", d.groups);
    assert [] + d.groups == d.groups && [] + d.licenses == d.licenses;
    ManyRead(i1, "%LICENSE%", d.licenses);
    Then(i, Many("%GROUPS%", d.groups), i1, Many("%LICENSE%", d.licenses), i2);
    var a := Many("%GROUPS%", d.groups) + Many("%LICENSE%", d.licenses);
    if d.validation == Validation(false, false, false, false) {
      assert a + [] == a;
    } else {
      var s := Section("%VALIDATION%", ValidationTexts(d.validation));
      ApplyOne(i2, s);
      ValidationRead(d.validation);
      Then(i, a, i2, [s], i2.(validation := d.validation.(md5 := false)));
    }
  }

  /** What dependencies are after their trip through text. */
  function RereadDeps(deps: seq<Dep>): seq<Dep> { ReadDeps(DepTexts(deps)) }

  lemma DepsKeptIff(deps: seq<Dep>)
    ensures RereadDeps(deps) == deps <==> forall k :: 0 <= k < |deps| ==> WellFormed(deps[k])
  {
    hide WellFormed, DepToString, DepFromString;
    forall k | 0 <= k < |deps| ensures RereadDeps(deps)[k] == deps[k] <==> WellFormed(deps[k]) { KeptByTextIff(deps[k]); }
  }

  /** What a pair is after its trip through text. */
  function RereadPair(x: (string, string)): (string, string) {
    var line := XdataText(x);
    var k := IndexFrom(line, '=', 0);
    assert line[|x.0|] == '=';
    (line[..k], line[k + 1..])
  }

  function RereadXdata(xs: seq<(string, string)>): seq<(string, string)> {
    seq(|xs|, i requires 0 <= i < |xs| => RereadPair(xs[i]))
  }

  lemma PairKeptIff(x: (string, string))
    ensures RereadPair(x) == x <==> Lacks(x.0, '=')
  {
    hide IndexFrom;
    var line := x.0 + ("=" + x.1);
    assert XdataText(x) == line;
    if Lacks(x.0, '=') { FindsChar(x.0, "=" + x.1, '='); }
    assert line[..|x.0|] == x.0 && line[|x.0| + 1..] == x.1;
    var k := IndexFrom(line, '=', 0);
    if k == |x.0| {
      forall n | 0 <= n < |x.0| ensures x.0[n] != '=' { assert line[n] == x.0[n]; }
    }
  }

  lemma XdataKeptIff(xs: seq<(string, string)>)
    ensures RereadXdata(xs) == xs <==> forall k :: 0 <= k < |xs| ==> Lacks(xs[k].0, '=')
  {
    hide Lacks, RereadPair;
    forall k | 0 <= k < |xs| ensures RereadXdata(xs)[k] == xs[k] <==> Lacks(xs[k].0, '=') { PairKeptIff(xs[k]); }
  }

  lemma {:induction false} XdataRead(xs: seq<(string, string)>)
    ensures ReadXdata(XdataTexts(xs)) == Some(RereadXdata(xs))
    decreases |xs|
  {
    hide IndexFrom;
    if xs == [] {
      assert XdataTexts(xs) == [] && RereadXdata(xs) == [];
    } else {
      XdataRead(xs[1..]);
      assert XdataTexts(xs)[1..] == XdataTexts(xs[1..]);
      assert XdataTexts(xs)[0] == XdataText(xs[0]);
      assert ParseXdata(XdataText(xs[0])) == Some(RereadPair(xs[0])) by { assert XdataText(xs[0])[|xs[0].0|] == '='; }
      assert RereadXdata(xs) == [RereadPair(xs[0])] + RereadXdata(xs[1..]);
    }
  }

  ghost predicate DepsWellFormed(d: Desc) {
    && (forall k :: 0 <= k < |d.replaces_| ==> WellFormed(d.replaces_[k]))
    && (forall k :: 0 <= k < |d.depends| ==> WellFormed(d.depends[k]))
    && (forall k :: 0 <= k < |d.optdepends| ==> WellFormed(d.optdepends[k]))
    && (forall k :: 0 <= k < |d.conflicts| ==> WellFormed(d.conflicts[k]))
    && (forall k :: 0 <= k < |d.provided| ==> WellFormed(d.provided[k]))
    && (forall k :: 0 <= k < |d.xdata| ==> Lacks(d.xdata[k].0, '='))
  }

  lemma RelationsRead(i: Desc, d: Desc)
    requires i.xdata == []
    requires i.replaces_ == i.depends == i.optdepends == i.conflicts == i.provided == []
    ensures Apply(i, Relations(d)) ==
            Some(i.(replaces_ := RereadDeps(d.replaces_), depends := RereadDeps(d.depends),
                    optdepends := RereadDeps(d.optdepends), conflicts := RereadDeps(d.conflicts),
                    provided := RereadDeps(d.provided), xdata := RereadXdata(d.xdata)))
  {
    hide Apply, Many, DepTexts, XdataTexts, ReadDeps, ReadXdata, ReadValidation, RereadDeps, RereadXdata;
    var i1 := i.(replaces_ := RereadDeps(d.replaces_));
    var i2 := i1.(depends := RereadDeps(d.depends));
    var i3 := i2.(optdepends := RereadDeps(d.optdepends));
    var i4 := i3.(conflicts := RereadDeps(d.conflicts));
    var i5 := i4.(provided := RereadDeps(d.provided));
    DepListRead(i, "%REPLACES%", d.replaces_);
    DepListRead(i1, "%DEPENDS%", d.depends);
    DepListRead(i2, "%OPTDEPENDS%", d.optdepends);
    DepListRead(i3, "%CONFLICTS%", d.conflicts);
    DepListRead(i4, "%PROVIDES%", d.provided);
    XdataListRead(i5, d.xdata);
    var a := Many("%REPLACES%", DepTexts(d.replaces_)) + Many("%DEPENDS%", DepTexts(d.depends));
    Then(i, Many("%REPLACES%", DepTexts(d.replaces_)), i1, Many("%DEPENDS%", DepTexts(d.depends)), i2);
    Then(i, a, i2, Many("%OPTDEPENDS%", DepTexts(d.optdepends)), i3);
    var b := a + Many("%OPTDEPENDS%", DepTexts(d.optdepends));
    Then(i, b, i3, Many("%CONFLICTS%", DepTexts(d.conflicts)), i4);
    var c := b + Many("%CONFLICTS%", DepTexts(d.conflicts));
    Then(i, c, i4, Many("%PROVIDES%", DepTexts(d.provided)), i5);
    Then(i, c + Many("%PROVIDES%", DepTexts(d.provided)), i5, Many("%XDATA%", XdataTexts(d.xdata)), i5.(xdata := RereadXdata(d.xdata)));
  }

  lemma XdataListRead(i: Desc, xs: seq<(string, string)>)
    requires i.xdata == []
    ensures Apply(i, Many("%XDATA%", XdataTexts(xs))) == Some(i.(xdata := RereadXdata(xs)))
  {
    hide Apply, Many, ReadXdata, RereadPair;
    ManyRead(i, "%XDATA%", XdataTexts(xs));
    XdataRead(xs);
    assert [] + RereadXdata(xs) == RereadXdata(xs);
  }

  lemma DepListRead(i: Desc, key: string, deps: seq<Dep>)
    requires !OneLine(key)
    ensures key == "%REPLACES%" && i.replaces_ == [] ==> Apply(i, Many(key, DepTexts(deps))) == Some(i.(replaces_ := RereadDeps(deps)))
    ensures key == "%DEPENDS%" && i.depends == [] ==> Apply(i, Many(key, DepTexts(deps))) == Some(i.(depends := RereadDeps(deps)))
    ensures key == "%OPTDEPENDS%" && i.optdepends == [] ==> Apply(i, Many(key, DepTexts(deps))) == Some(i.(optdepends := RereadDeps(deps)))
    ensures key == "%CONFLICTS%" && i.conflicts == [] ==> Apply(i, Many(key, DepTexts(deps))) == Some(i.(conflicts := RereadDeps(deps)))
    ensures key == "%PROVIDES%" && i.provided == [] ==> Apply(i, Many(key, DepTexts(deps))) == Some(i.(provided := RereadDeps(deps)))
  {
    hide Apply, Many, DepTexts, ReadDeps, OneLine, ReadXdata, ReadValidation;
    NoDeps(deps);
    ManyRead(i, key, DepTexts(deps));
    assert [] + RereadDeps(deps) == RereadDeps(deps);
  }

  lemma NoDeps(deps: seq<Dep>)
    ensures (DepTexts(deps) == [] <==> deps == []) && RereadDeps([]) == []
  {
  }

  /** A record whose written values keep within lines: no newline, short enough, no empty list
      entry; with 64-bit numbers. */
  ghost predicate Readable(d: Desc) {
    (forall k :: 0 <= k < |Sections(d)| ==> Clean(Sections(d)[k])) && Numeric(d)
  }

  /** What such a record is after it was written and read. */
  function Reread(d: Desc): Desc {
    d.(isize := RereadSize(d.isize), validation := d.validation.(md5 := false),
       replaces_ := RereadDeps(d.replaces_), depends := RereadDeps(d.depends), optdepends := RereadDeps(d.optdepends),
       conflicts := RereadDeps(d.conflicts), provided := RereadDeps(d.provided), xdata := RereadXdata(d.xdata),
       makedepends := [], checkdepends := [])
  }

  /** Size, dependencies and extra data have a text form, and there is nothing in the fields that
      are not written. */
  ghost predicate ComesBack(d: Desc) {
    d.isize >= -1 && DepsWellFormed(d) && !d.validation.md5 && d.makedepends == d.checkdepends == []
  }

  /** Exactly these records come back as they were. */
  lemma ComesBackIff(d: Desc)
    requires -INT64 <= d.isize < INT64
    ensures Reread(d) == d <==> ComesBack(d)
  {
    hide WellFormed, Lacks, RereadDeps, RereadXdata, ParseSize, PrintInt;
    SizeRoundTripIff(d.isize);
    DepsKeptIff(d.replaces_);
    DepsKeptIff(d.depends);
    DepsKeptIff(d.optdepends);
    DepsKeptIff(d.conflicts);
    DepsKeptIff(d.provided);
    XdataKeptIff(d.xdata);
  }

  /** What is written is what is read as these lines. */
  lemma {:induction false} ReadsProper(secs: seq<Section>)
    requires forall k :: 0 <= k < |secs| ==> Clean(secs[k])
    ensures Proper(ReadsOf(secs)) && Buffered(ReadsOf(secs)) == TextOf(secs)
    decreases |secs|
  {
    hide LineReader.NoNewline, OneLine, Unlines, Buffered, Fits;
    if secs == [] {
      NothingWritten();
    } else {
      ReadsProper(secs[1..]);
      assert Clean(secs[0]);
      var a, b := [secs[0].key] + secs[0].vals + [""] + Extra(secs[0]), ReadsOf(secs[1..]);
      SectionFits(secs[0]);
      FitsAppend(a, b);
      assert ReadsOf(secs) == a + b;
      SectionText(secs[0]);
      BufferedAppend(a, b);
      UnlinesAppend([secs[0].key] + secs[0].vals + [""], LinesOf(secs[1..]));
    }
  }

  lemma NothingWritten()
    ensures Proper(ReadsOf([])) && Buffered(ReadsOf([])) == TextOf([])
  {
  }

  lemma {:induction false} BufferedAppend(a: seq<string>, b: seq<string>)
    ensures Buffered(a + b) == Buffered(a) + Buffered(b)
    decreases |a|
  {
    hide Ended, Buffered;
    if a == [] {
      assert a + b == b;
      NothingLeft();
    } else {
      BufferedAppend(a[1..], b);
      assert (a + b)[1..] == a[1..] + b && (a + b)[0] == a[0];
      BufferedStep(a);
      BufferedStep(a + b);
    }
  }

  lemma {:induction false} BufferedPlain(lines: seq<string>)
    requires forall k :: 0 <= k < |lines| ==> |lines[k]| < BUFFER
    ensures Buffered(lines) == Unlines(lines)
    decreases |lines|
  {
    if lines != [] { BufferedPlain(lines[1..]); }
  }

  lemma SectionText(s: Section)
    requires Clean(s)
    ensures Buffered([s.key] + s.vals + [""] + Extra(s)) == Unlines([s.key] + s.vals + [""])
  {
    hide LineReader.NoNewline, OneLine, Unlines, Buffered;
    var lines := [s.key] + s.vals + [""];
    if Extra(s) == [] {
      assert lines + [] == lines;
      assert forall k :: 0 < k <= |s.vals| ==> lines[k] == s.vals[k - 1];
      BufferedPlain(lines);
    } else {
      var n := |s.vals| - 1;
      var head, last := [s.key] + s.vals[..n], s.vals[n];
      BufferedPlain(head);
      assert lines == head + [last, ""] && lines + [""] == head + [last, "", ""];
      BufferedAppend(head, [last, "", ""]);
      UnlinesAppend(head, [last, ""]);
      LastFills(last);
    }
  }

  lemma LastFills(last: string)
    requires |last| == BUFFER
    ensures Buffered([last, "", ""]) == Unlines([last, ""])
  {
    assert [last, "", ""][1..] == ["", ""] && ["", ""][1..] == [""] && [""][1..] == [];
    assert [last, ""][1..] == [""];
    assert Buffered([""]) == "\n" && Unlines([""]) == "\n" && Buffered(["", ""]) == "\n" + "\n";
    assert last + ("\n" + "\n") == last + "\n" + "\n";
  }

  lemma SectionFits(s: Section)
    requires Clean(s)
    ensures Fits([s.key] + s.vals + [""] + Extra(s))
  {
    hide OneLine;
    var lines := [s.key] + s.vals + [""] + Extra(s);
    forall i | 0 <= i < |lines| ensures |lines[i]| <= BUFFER && LineReader.NoNewline(lines[i]) {
      if 0 < i <= |s.vals| { assert lines[i] == s.vals[i - 1]; }
    }
  }

  lemma FitsAppend(a: seq<string>, b: seq<string>)
    requires Fits(a) && Fits(b)
    ensures Fits(a + b)
  {
    hide LineReader.NoNewline;
  }

  /** Reading the lines of a written record gives the record up to its trip through text. */
  lemma ReadBack(d: Desc)
    requires Readable(d)
    ensures ReadLines(Blank(d.name, d.version), ReadsOf(Sections(d))) == Some(Reread(d))
  {
    hide Apply, Names, Facts, Groups, Relations, ReadsOf, ReadLines, Clean, RereadDeps, RereadXdata, RereadSize;
    var i := Blank(d.name, d.version);
    var i1 := i.(base := d.base, desc := d.desc, url := d.url, arch := d.arch);
    var i2 := i1.(builddate := d.builddate, installdate := d.installdate, packager := d.packager,
                  isize := RereadSize(d.isize), reason := d.reason);
    var i3 := i2.(groups := d.groups, licenses := d.licenses, validation := d.validation.(md5 := false));
    NamesRead(i, d);
    FactsRead(i1, d);
    GroupsRead(i2, d);
    RelationsRead(i3, d);
    Then(i, Names(d), i1, Facts(d), i2);
    Then(i, Names(d) + Facts(d), i2, Groups(d), i3);
    Then(i, Names(d) + Facts(d) + Groups(d), i3, Relations(d), Reread(d));
    SectionsRead(i, Sections(d));
  }

  /** What local_db_read makes of what _klpm_local_db_write wrote. */
  method DescRoundTrip(d: Desc) returns (r: Option<Desc>)
    requires Readable(d)
    ensures r == Some(Reread(d))
    ensures r == Some(d) <==> ComesBack(d)
  {
    hide Unlines, Buffered, ReadsOf, Sections, Proper, ReadLines, Clean, ComesBack, Reread;
    var text := WriteDesc(d);
    ReadsProper(Sections(d));
    ReadBack(d);
    ComesBackIff(d);
    r := ReadDesc(text, d.name, d.version, ReadsOf(Sections(d)));
  }

  // ----- the file list

  datatype Backup = Backup(name: string, hash: Option<string>)

  datatype Files = Files(files: seq<string>, backup: seq<Backup>)

  /** _klpm_filelist_sort */
  function SortFiles(files: seq<string>): seq<string> { Lists.MergeSort(files, ListDiff.AtMost(StrCmp)) }

  /** _klpm_split_backup */
  function SplitBackup(line: string): Backup {
    var k := IndexFrom(line, '\t', 0);
    if k == |line| then Backup(line, None) else Backup(line[..k], Some(line[k + 1..]))
  }

  function SplitBackups(vals: seq<string>): seq<Backup> { seq(|vals|, i requires 0 <= i < |vals| => SplitBackup(vals[i])) }

  function StoreFiles(i: Files, key: string, vals: seq<string>): Files {
    if key == "%FILES%" then i.(files := SortFiles(vals)) else i.(backup := i.backup + SplitBackups(vals))
  }

  predicate FilesKey(key: string) { key == "%FILES%" || key == "%BACKUP%" }

  function ReadFileLines(i: Files, lines: seq<string>): Files
    decreases |lines|
  {
    if lines == [] then i
    else if FilesKey(lines[0]) then
      ReadFileLines(StoreFiles(i, lines[0], lines[1..][..FirstBlank(lines[1..])]), AfterBlank(lines[1..]))
    else ReadFileLines(i, lines[1..])
  }

  /** The files part of local_db_read. */
  method ReadFiles(text: string, ghost lines: seq<string>) returns (info: Files)
    ensures text == Buffered(lines) && Proper(lines) ==> info == ReadFileLines(Files([], []), lines)
  {
    hide Buffered, StoreFiles, Proper, FirstBlank, AfterBlank, FilesKey;
    var fp := new File(text);
    info := Files([], []);
    ghost var left := lines;
    ghost var synced := text == Buffered(lines) && Proper(lines);
    while true
      invariant fresh(fp)
      invariant synced ==> fp.Sync(left) && ReadFileLines(Files([], []), lines) == ReadFileLines(info, left)
      decreases |fp.rest|
    {
      ghost var after := if left == [] then [] else left[1..];
      var more := fp.NextLineOf(left);
      if !more {
        return;
      }
      left := after;
      var key := fp.line;
      if FilesKey(key) {
        var vals := fp.ReadAll(after);
        info := StoreFiles(info, key, vals);
        left := AfterBlank(after);
      }
    }
  }

  /** name, tab and hash; a missing hash prints as "(null)". */
  function BackupText(b: Backup): string { b.name + "\t" + if b.hash.Some? then b.hash.value else "(null)" }

  function BackupTexts(bs: seq<Backup>): seq<string> { seq(|bs|, i requires 0 <= i < |bs| => BackupText(bs[i])) }

  function FileSections(i: Files): seq<Section> { Many("%FILES%", i.files) + Many("%BACKUP%", BackupTexts(i.backup)) }

  /** The files part of _klpm_local_db_write. */
  method WriteFiles(i: Files) returns (out: string)
    ensures out == TextOf(FileSections(i))
  {
    hide TextOf, Many, BackupTexts;
    out := WriteMany("%FILES%", i.files);
    var piece := WriteMany("%BACKUP%", BackupTexts(i.backup));
    out := Append(out, piece, Many("%FILES%", i.files), Many("%BACKUP%", BackupTexts(i.backup)));
  }

  /** What backup entries are after their trip through text. */
  function RereadBackups(bs: seq<Backup>): seq<Backup> { SplitBackups(BackupTexts(bs)) }

  lemma BackupKeptIff(b: Backup)
    ensures SplitBackup(BackupText(b)) == b <==> b.hash.Some? && Lacks(b.name, '\t')
  {
    hide IndexFrom;
    var hash := if b.hash.Some? then b.hash.value else "(null)";
    var line := b.name + ("\t" + hash);
    assert BackupText(b) == line;
    if Lacks(b.name, '\t') { FindsChar(b.name, "\t" + hash, '\t'); }
    assert line[..|b.name|] == b.name && line[|b.name|] == '\t' && line[|b.name| + 1..] == hash;
    var k := IndexFrom(line, '\t', 0);
    if k == |b.name| {
      forall n | 0 <= n < |b.name| ensures b.name[n] != '\t' { assert line[n] == b.name[n]; }
    }
  }

  lemma BackupsKeptIff(bs: seq<Backup>)
    ensures RereadBackups(bs) == bs <==> forall k :: 0 <= k < |bs| ==> bs[k].hash.Some? && Lacks(bs[k].name, '\t')
    ensures BackupTexts(bs) == [] <==> bs == []
  {
    hide Lacks, SplitBackup, BackupText;
    forall k | 0 <= k < |bs|
      ensures RereadBackups(bs)[k] == bs[k] <==> bs[k].hash.Some? && Lacks(bs[k].name, '\t')
    {
      BackupKeptIff(bs[k]);
    }
  }

  /** A file whose hash was never set, as for one that was not extracted, comes back with the
      text of a null pointer for its hash. */
  lemma NullHash(name: string)
    requires Lacks(name, '\t')
    ensures SplitBackup(BackupText(Backup(name, None))) == Backup(name, Some("(null)"))
  {
    hide IndexFrom;
    var line := name + ("\t" + "(null)");
    assert BackupText(Backup(name, None)) == line;
    FindsChar(name, "\t" + "(null)", '\t');
    assert line[..|name|] == name && line[|name| + 1..] == "(null)";
  }

  /** A file list with entries that keep within lines. */
  ghost predicate ReadableFiles(i: Files) { forall k :: 0 <= k < |FileSections(i)| ==> Clean(FileSections(i)[k]) }

  /** Already in byte order, and backup entries with a hash and no tab in the name. */
  ghost predicate FilesComeBack(i: Files) {
    && Lists.Sorted(i.files, ListDiff.AtMost(StrCmp))
    && forall k :: 0 <= k < |i.backup| ==> i.backup[k].hash.Some? && Lacks(i.backup[k].name, '\t')
  }

  lemma FileSectionRead(i: Files, s: Section, rest: seq<string>)
    requires Clean(s) && FilesKey(s.key)
    ensures ReadFileLines(i, [s.key] + s.vals + [""] + rest) == ReadFileLines(StoreFiles(i, s.key, s.vals), rest)
  {
    hide Fits, LineReader.NoNewline, StoreFiles;
    var lines := [s.key] + s.vals + [""] + rest;
    var tail := s.vals + [""] + rest;
    assert lines[1..] == tail;
    BlankIs(tail, |s.vals|);
    assert tail[..|s.vals|] == s.vals && tail[|s.vals| + 1..] == rest;
  }

  /** The two keys of a file list. */
  lemma FileKeys(i: Files, vals: seq<string>)
    requires forall k :: 0 <= k < |vals| ==> vals[k] != ""
    ensures ReadFileLines(i, ["%FILES%"] + vals + [""]) == i.(files := SortFiles(vals))
    ensures ReadFileLines(i, ["%BACKUP%"] + vals + [""]) == i.(backup := i.backup + SplitBackups(vals))
  {
    hide SortFiles, SplitBackups, ReadFileLines, StoreFiles;
    FileKey(i, "%FILES%", vals);
    FileKey(i, "%BACKUP%", vals);
    Stores(i, vals);
  }

  lemma Stores(i: Files, vals: seq<string>)
    ensures StoreFiles(i, "%FILES%", vals) == i.(files := SortFiles(vals))
    ensures StoreFiles(i, "%BACKUP%", vals) == i.(backup := i.backup + SplitBackups(vals))
  {
    hide SortFiles, SplitBackups;
  }

  lemma FileKey(i: Files, key: string, vals: seq<string>)
    requires FilesKey(key) && forall k :: 0 <= k < |vals| ==> vals[k] != ""
    ensures ReadFileLines(i, [key] + vals + [""]) == StoreFiles(i, key, vals)
  {
    hide StoreFiles;
    var lines, tail := [key] + vals + [""], vals + [""];
    assert lines[1..] == tail;
    BlankIs(tail, |vals|);
    assert tail[..|vals|] == vals && tail[|vals| + 1..] == [];
  }

  lemma SkipExtraFiles(i: Files, s: Section, rest: seq<string>)
    ensures ReadFileLines(i, Extra(s) + rest) == ReadFileLines(i, rest)
  {
    assert ([""] + rest)[1..] == rest && [] + rest == rest;
  }

  lemma ManyFilesRead(i: Files, key: string, vals: seq<string>, rest: seq<Section>)
    requires FilesKey(key) && (vals != [] ==> Clean(Section(key, vals)))
    ensures ReadFileLines(i, ReadsOf(Many(key, vals) + rest)) ==
            ReadFileLines(if vals != [] then StoreFiles(i, key, vals) else i, ReadsOf(rest))
  {
    hide Clean, StoreFiles, ReadFileLines;
    if vals != [] {
      var s := Section(key, vals);
      FileSectionRead(i, s, Extra(s) + ReadsOf(rest));
      SkipExtraFiles(StoreFiles(i, key, vals), s, ReadsOf(rest));
      assert ([s] + rest)[1..] == rest;
    } else {
      assert Many(key, vals) + rest == rest;
    }
  }

  lemma SortIs(files: seq<string>)
    ensures SortFiles(files) == Lists.MergeSort(files, ListDiff.AtMost(StrCmp))
  {
  }

  /** Sorting leaves an ordered list alone. */
  lemma {:induction false} SortedStays(s: seq<string>, le: (string, string) -> bool)
    requires Lists.Sorted(s, le)
    ensures Lists.MergeSort(s, le) == s
    decreases |s|
  {
    if |s| > 1 {
      var l, r := s[..|s| / 2], s[|s| / 2..];
      SortedStays(l, le);
      SortedStays(r, le);
      MergeOrdered(l, r, le);
      assert s == l + r;
    }
  }

  lemma {:induction false} MergeOrdered(a: seq<string>, b: seq<string>, le: (string, string) -> bool)
    requires forall i, j :: 0 <= i < |a| && 0 <= j < |b| ==> le(a[i], b[j])
    ensures Lists.Merge(a, b, le) == a + b
    decreases |a|
  {
    if a != [] && b != [] {
      MergeOrdered(a[1..], b, le);
    }
  }

  /** Only an ordered list is left alone by sorting. */
  lemma SortKeepsIff(files: seq<string>)
    ensures SortFiles(files) == files <==> Lists.Sorted(files, ListDiff.AtMost(StrCmp))
  {
    hide SortFiles, Lists.Sorted, StrCmp;
    SortIs(files);
    if Lists.Sorted(files, ListDiff.AtMost(StrCmp)) { SortedStays(files, ListDiff.AtMost(StrCmp)); }
    var u := set x | x in files;
    FileList.ByteOrder(u);
    ListDiff.ComparisonIsTotal(u, StrCmp);
    Lists.MergeSortIsStableSort(files, ListDiff.AtMost(StrCmp));
  }

  function RereadFiles(i: Files): Files { Files(SortFiles(i.files), RereadBackups(i.backup)) }

  lemma FilesReadBack(i: Files)
    requires ReadableFiles(i)
    ensures ReadFileLines(Files([], []), ReadsOf(FileSections(i))) == RereadFiles(i)
  {
    hide Clean, SortFiles, BackupTexts, SplitBackups, ReadsOf, ReadFileLines;
    var a, b := Many("%FILES%", i.files), Many("%BACKUP%", BackupTexts(i.backup));
    BackupsKeptIff(i.backup);
    BackupsKeptIff([]);
    SortIs([]);
    if i.files != [] { assert FileSections(i)[0] == Section("%FILES%", i.files); }
    if i.backup != [] { assert FileSections(i)[|a|] == Section("%BACKUP%", BackupTexts(i.backup)); }
    ManyFilesRead(Files([], []), "%FILES%", i.files, b);
    assert b + [] == b;
    ManyFilesRead(Files(SortFiles(i.files), []), "%BACKUP%", BackupTexts(i.backup), []);
    NoFileLines(RereadFiles(i));
    NoFileLines(Files(SortFiles(i.files), []));
    assert [] + RereadBackups(i.backup) == RereadBackups(i.backup);
  }

  lemma NoFileLines(i: Files)
    ensures ReadFileLines(i, ReadsOf([])) == i
  {
  }

  method FilesRoundTrip(i: Files) returns (r: Files)
    requires ReadableFiles(i)
    ensures r == RereadFiles(i)
    ensures r == i <==> FilesComeBack(i)
  {
    hide Unlines, Buffered, ReadsOf, FileSections, Proper, ReadFileLines, Clean, SortFiles, RereadBackups;
    var text := WriteFiles(i);
    ReadsProper(FileSections(i));
    FilesReadBack(i);
    SortKeepsIff(i.files);
    BackupsKeptIff(i.backup);
    r := ReadFiles(text, ReadsOf(FileSections(i)));
  }
}
