/**
 The tab-separated text file behind the certificate index: how rows are written,
 how they are read back through a growing buffer, and exactly which tables survive.
 */
module TxtDb {
  import opened Wrappers

  /** The fields of one row. */
  type Fields = seq<string>

  // ----- writing (TXT_DB_write) -----

  /** A tab inside a field is preceded by a backslash; nothing else is changed. */
  function WriteField(f: string): string {
    if f == "" then ""
    else (if f[0] == '\t' then "\\\t" else [f[0]]) + WriteField(f[1..])
  }

  function WriteRow(r: Fields): string
    requires |r| > 0
  {
    if |r| == 1 then WriteField(r[0]) else WriteField(r[0]) + "\t" + WriteRow(r[1..])
  }

  ghost predicate Table(rows: seq<Fields>, num: nat) {
    forall i :: 0 <= i < |rows| ==> |rows[i]| == num
  }

  function WriteAll(rows: seq<Fields>): string
    requires forall i :: 0 <= i < |rows| ==> |rows[i]| > 0
  {
    if rows == [] then "" else WriteRow(rows[0]) + "\n" + WriteAll(rows[1..])
  }

  // ----- reading (TXT_DB_read) -----

  predicate EndsEscaped(s: string) {
    s != "" && s[|s| - 1] == '\\'
  }

  /** The rest of a line, with `cur` already collected for the current field and
      `left` fields to follow it. A tab after a backslash replaces the backslash. */
  function Scan(line: string, cur: string, left: nat): (r: Option<Fields>)
    ensures r.Some? ==> |r.value| == left + 1
    decreases |line|
  {
    if line == "" then (if left == 0 then Some([cur]) else None)
    else if line[0] == '\t' && !EndsEscaped(cur) then
      if left == 0 then (if |line| == 1 then Some([cur]) else None)
      else
        match Scan(line[1..], "", left - 1)
        case None => None
        case Some(rest) => Some([cur] + rest)
    else
      Scan(line[1..], (if line[0] == '\t' then cur[..|cur| - 1] else cur) + [line[0]], left)
  }

  function FindNewline(text: string): (k: nat)
    ensures k <= |text|
    ensures k < |text| ==> text[k] == '\n'
    ensures forall i :: 0 <= i < k ==> text[i] != '\n'
  {
    if text == "" || text[0] == '\n' then 0 else 1 + FindNewline(text[1..])
  }

  const BufSize: nat := 512

  /** `BIO_gets`: at most `room - 1` characters, and nothing after a newline. */
  function Gets(text: string, room: nat): (s: string)
    requires room > 1
    ensures |s| <= |text| && s == text[..|s|] && |s| < room
    ensures s == "" <==> text == ""
    ensures forall i :: 0 <= i < |s| - 1 ==> s[i] != '\n'
    ensures |s| < |text| && |s| < room - 1 ==> s[|s| - 1] == '\n'
  {
    var k := FindNewline(text);
    var n := if k < |text| then k + 1 else k;
    text[..if n < room then n else room - 1]
  }

  /** The size of the buffer once a line of `n` characters, newline included, is in it. */
  function Grown(size: nat, n: nat): (g: nat)
    ensures g >= size && g > n
    decreases if n < size then 0 else n - size + 1
  {
    if n < size then size else Grown(size + BufSize, n)
  }

  /** The rows of a text, read with a buffer of this size: every complete line, except that
      where a line starts with '#', as much of it is skipped as one call of `BIO_gets` takes. */
  function ReadFrom(text: string, num: nat, size: nat): (r: Option<seq<Fields>>)
    requires num > 0 && size >= BufSize
    ensures r.Some? ==> Table(r.value, num)
    decreases |text|
  {
    if text == "" then Some([])
    else if text[0] == '#' then ReadFrom(text[|Gets(text, size)|..], num, size)
    else
      var k := FindNewline(text);
      if k == |text| then Some([]) else
        match Scan(text[..k], "", num - 1)
        case None => None
        case Some(row) => Prepend([row], ReadFrom(text[k + 1..], num, Grown(size, k + 1)))
  }

  function ReadAll(text: string, num: nat): Option<seq<Fields>>
    requires num > 0
  {
    ReadFrom(text, num, BufSize)
  }

  function Prepend(rows: seq<Fields>, more: Option<seq<Fields>>): Option<seq<Fields>> {
    if more.None? then None else Some(rows + more.value)
  }

  // ----- what survives -----

  /** No field holds a newline, no field but the last ends in a backslash, and the
      line does not look like a comment. */
  predicate Storable(r: Fields) {
    && |r| > 0
    && (forall i :: 0 <= i < |r| ==> '\n' !in r[i])
    && (forall i :: 0 <= i < |r| - 1 ==> !EndsEscaped(r[i]))
    && (r[0] == "" || r[0][0] != '#')
  }

  lemma {:induction false} ScanField(f: string, rest: string, cur: string, left: nat)
    ensures Scan(WriteField(f) + rest, cur, left) == Scan(rest, cur + f, left)
    decreases |f|
  {
    if f == "" {
      assert WriteField(f) + rest == rest && cur + f == cur;
    } else {
      var w := WriteField(f[1..]) + rest;
      assert cur + [f[0]] + f[1..] == cur + f;
      if f[0] == '\t' {
        assert WriteField(f) + rest == ['\\'] + (['\t'] + w);
        assert (['\\'] + (['\t'] + w))[1..] == ['\t'] + w;
        var c := cur + ['\\'];
        assert Scan(WriteField(f) + rest, cur, left) == Scan(['\t'] + w, c, left);
        assert (['\t'] + w)[1..] == w && c[..|c| - 1] == cur;
      } else {
        assert WriteField(f) + rest == [f[0]] + w;
        assert ([f[0]] + w)[1..] == w;
      }
      ScanField(f[1..], rest, cur + [f[0]], left);
    }
  }

  lemma {:induction false} ScanRow(r: Fields)
    requires |r| > 0
    requires forall i :: 0 <= i < |r| - 1 ==> !EndsEscaped(r[i])
    ensures Scan(WriteRow(r), "", |r| - 1) == Some(r)
    decreases |r|
  {
    assert "" + r[0] == r[0];
    if |r| == 1 {
      ScanField(r[0], "", "", 0);
      assert WriteField(r[0]) + "" == WriteField(r[0]);
      assert [r[0]] == r;
    } else {
      var rest := "\t" + WriteRow(r[1..]);
      assert WriteRow(r) == WriteField(r[0]) + rest;
      ScanField(r[0], rest, "", |r| - 1);
      assert rest[1..] == WriteRow(r[1..]);
      ScanRow(r[1..]);
      assert [r[0]] + r[1..] == r;
    }
  }

  lemma {:induction false} WrittenFieldPlain(f: string)
    requires '\n' !in f
    ensures '\n' !in WriteField(f)
    ensures f == "" <==> WriteField(f) == ""
    ensures f != "" && f[0] != '#' ==> WriteField(f)[0] != '#'
  {
    if f != "" { WrittenFieldPlain(f[1..]); }
  }

  lemma {:induction false} WrittenRowPlain(r: Fields)
    requires |r| > 0 && forall i :: 0 <= i < |r| ==> '\n' !in r[i]
    ensures '\n' !in WriteRow(r)
    ensures (r[0] == "" || r[0][0] != '#') ==> WriteRow(r) == "" || WriteRow(r)[0] != '#'
  {
    WrittenFieldPlain(r[0]);
    if |r| > 1 {
      assert WriteRow(r) == WriteField(r[0]) + ("\t" + WriteRow(r[1..]));
      WrittenRowPlain(r[1..]);
    }
  }

  lemma {:induction false} FindNewlineAfter(a: string, b: string)
    requires '\n' !in a
    ensures FindNewline(a + "\n" + b) == |a|
  {
    if a != "" {
      assert (a + "\n" + b)[1..] == a[1..] + "\n" + b;
      FindNewlineAfter(a[1..], b);
    }
  }

  /** One complete line in front of a text. */
  lemma ReadFirstLine(line: string, rest: string, num: nat, size: nat)
    requires num > 0 && size >= BufSize && '\n' !in line && (line == "" || line[0] != '#')
    ensures var row := Scan(line, "", num - 1);
      ReadFrom(line + "\n" + rest, num, size) ==
        if row.None? then None else Prepend([row.value], ReadFrom(rest, num, Grown(size, |line| + 1)))
  {
    var text := line + "\n" + rest;
    FindNewlineAfter(line, rest);
    assert text[..|line|] == line && text[|line| + 1..] == rest;
    assert text[0] == if line == "" then '\n' else line[0];
  }

  /** A line that is no comment and scans as this row. */
  ghost predicate LineOf(line: string, row: Fields) {
    |row| > 0 && '\n' !in line && (line == "" || line[0] != '#') && Scan(line, "", |row| - 1) == Some(row)
  }

  lemma WrittenLine(row: Fields)
    requires Storable(row)
    ensures LineOf(WriteRow(row), row)
  {
    WrittenRowPlain(row);
    ScanRow(row);
  }

  lemma ReadLine(line: string, row: Fields, rest: string, size: nat)
    requires size >= BufSize && LineOf(line, row)
    ensures ReadFrom(line + "\n" + rest, |row|, size) == Prepend([row], ReadFrom(rest, |row|, Grown(size, |line| + 1)))
  {
    ReadFirstLine(line, rest, |row|, size);
  }

  lemma ReadRow(row: Fields, rest: string, size: nat)
    requires size >= BufSize && Storable(row)
    ensures ReadFrom(WriteRow(row) + "\n" + rest, |row|, size)
         == Prepend([row], ReadFrom(rest, |row|, Grown(size, |WriteRow(row)| + 1)))
  {
    WrittenLine(row);
    ReadLine(WriteRow(row), row, rest, size);
  }

  lemma {:induction false} StorableRoundTrip(rows: seq<Fields>, num: nat, size: nat)
    requires num > 0 && size >= BufSize && Table(rows, num)
    requires forall i :: 0 <= i < |rows| ==> Storable(rows[i])
    ensures ReadFrom(WriteAll(rows), num, size) == Some(rows)
    decreases |rows|
  {
    if rows != [] {
      StorableRoundTrip(rows[1..], num, Grown(size, |WriteRow(rows[0])| + 1));
      ReadRow(rows[0], WriteAll(rows[1..]), size);
      assert [rows[0]] + rows[1..] == rows;
    }
  }

  lemma {:induction false} ScanGivesPlainFields(line: string, cur: string, left: nat)
    requires '\n' !in line && '\n' !in cur && Scan(line, cur, left).Some?
    ensures var r := Scan(line, cur, left).value;
      && (forall i :: 0 <= i < |r| ==> '\n' !in r[i])
      && (forall i :: 0 <= i < |r| - 1 ==> !EndsEscaped(r[i]))
    decreases |line|
  {
    if line != "" {
      if line[0] == '\t' && !EndsEscaped(cur) {
        if left > 0 { ScanGivesPlainFields(line[1..], "", left - 1); }
      } else {
        ScanGivesPlainFields(line[1..], (if line[0] == '\t' then cur[..|cur| - 1] else cur) + [line[0]], left);
      }
    }
  }

  lemma {:induction false} ScanGivesNoComment(line: string, cur: string, left: nat)
    requires Scan(line, cur, left).Some?
    requires cur == "" ==> line == "" || line[0] != '#'
    requires cur != "" ==> cur[0] != '#'
    ensures var r := Scan(line, cur, left).value; r[0] == "" || r[0][0] != '#'
    decreases |line|
  {
    if line != "" && !(line[0] == '\t' && !EndsEscaped(cur)) {
      ScanGivesNoComment(line[1..], (if line[0] == '\t' then cur[..|cur| - 1] else cur) + [line[0]], left);
    }
  }

  lemma ScanGivesStorable(line: string, num: nat)
    requires num > 0 && '\n' !in line && (line == "" || line[0] != '#') && Scan(line, "", num - 1).Some?
    ensures Storable(Scan(line, "", num - 1).value)
  {
    ScanGivesPlainFields(line, "", num - 1);
    ScanGivesNoComment(line, "", num - 1);
  }

  lemma {:induction false} ReadFromStorable(text: string, num: nat, size: nat)
    requires num > 0 && size >= BufSize && ReadFrom(text, num, size).Some?
    ensures forall i :: 0 <= i < |ReadFrom(text, num, size).value| ==> Storable(ReadFrom(text, num, size).value[i])
    decreases |text|
  {
    if text != "" && text[0] == '#' {
      ReadFromStorable(text[|Gets(text, size)|..], num, size);
    } else if text != "" {
      var k := FindNewline(text);
      if k < |text| {
        ReadFromStorable(text[k + 1..], num, Grown(size, k + 1));
        ScanGivesStorable(text[..k], num);
      }
    }
  }

  /** Every table that can be read at all is storable. */
  lemma ReadGivesStorable(text: string, num: nat)
    requires num > 0 && ReadAll(text, num).Some?
    ensures forall i :: 0 <= i < |ReadAll(text, num).value| ==> Storable(ReadAll(text, num).value[i])
  {
    ReadFromStorable(text, num, BufSize);
  }

  /** A table comes back from its file unchanged exactly when all its rows are storable. */
  lemma FileRoundTrip(rows: seq<Fields>, num: nat)
    requires num > 0 && Table(rows, num)
    ensures ReadAll(WriteAll(rows), num) == Some(rows)
       <==> forall i :: 0 <= i < |rows| ==> Storable(rows[i])
  {
    if forall i :: 0 <= i < |rows| ==> Storable(rows[i]) {
      StorableRoundTrip(rows, num, BufSize);
    } else if ReadAll(WriteAll(rows), num) == Some(rows) {
      ReadGivesStorable(WriteAll(rows), num);
    }
  }

  // ----- the lines that are read -----

  lemma {:induction false} WriteFieldAppend(f: string, c: char)
    ensures WriteField(f + [c]) == WriteField(f) + if c == '\t' then "\\\t" else [c]
  {
    var g := f + [c];
    if f == "" {
      assert g[1..] == "";
    } else {
      assert g[0] == f[0] && g[1..] == f[1..] + [c];
      WriteFieldAppend(f[1..], c);
    }
  }

  /** What has been read so far is what writing the field gives, one tab later too. */
  lemma CollectsWritten(cur: string, c: char)
    requires c == '\t' ==> EndsEscaped(cur)
    ensures var next := (if c == '\t' then cur[..|cur| - 1] else cur) + [c];
      WriteField(next) == WriteField(cur) + [c]
  {
    if c == '\t' {
      var bare := cur[..|cur| - 1];
      assert cur == bare + ['\\'];
      WriteFieldAppend(bare, '\\');
      WriteFieldAppend(bare, '\t');
    } else {
      WriteFieldAppend(cur, c);
    }
  }

  /** The line that a row is written as, possibly with one more tab at its end. */
  ghost predicate Spells(line: string, r: Fields) {
    && |r| > 0 && (forall i :: 0 <= i < |r| - 1 ==> !EndsEscaped(r[i]))
    && (line == WriteRow(r) || (line == WriteRow(r) + "\t" && !EndsEscaped(r[|r| - 1])))
  }

  lemma SpellsMore(first: string, line: string, rest: Fields)
    requires !EndsEscaped(first) && Spells(line, rest)
    ensures Spells(WriteField(first) + "\t" + line, [first] + rest)
  {
    var r := [first] + rest;
    assert r[1..] == rest && r[|r| - 1] == rest[|rest| - 1];
    assert WriteRow(r) == WriteField(first) + "\t" + WriteRow(rest);
    assert WriteField(first) + "\t" + (WriteRow(rest) + "\t") == WriteRow(r) + "\t";
  }

  lemma SpellsOne(f: string)
    ensures Spells(WriteField(f), [f])
    ensures !EndsEscaped(f) ==> Spells(WriteField(f) + "\t", [f])
  {
    assert WriteField(f) == WriteRow([f]);
  }

  /** The text in front of the rest of the line. */
  ghost predicate SpellsAfter(cur: string, line: string, r: Option<Fields>) {
    r.Some? ==> Spells(WriteField(cur) + line, r.value)
  }

  lemma NextField(cur: string, line: string, rest: Option<Fields>)
    requires !EndsEscaped(cur) && rest.Some? && SpellsAfter("", line, rest)
    ensures SpellsAfter(cur, "\t" + line, Some([cur] + rest.value))
  {
    assert WriteField("") + line == line;
    SpellsMore(cur, line, rest.value);
    assert WriteField(cur) + "\t" + line == WriteField(cur) + ("\t" + line);
  }

  lemma NextChar(cur: string, c: char, line: string, r: Option<Fields>)
    requires c == '\t' ==> EndsEscaped(cur)
    requires SpellsAfter((if c == '\t' then cur[..|cur| - 1] else cur) + [c], line, r)
    ensures SpellsAfter(cur, [c] + line, r)
  {
    CollectsWritten(cur, c);
    assert WriteField(cur) + [c] + line == WriteField(cur) + ([c] + line);
  }

  lemma {:induction false} ScanIsWritten(line: string, cur: string, left: nat)
    ensures SpellsAfter(cur, line, Scan(line, cur, left))
    decreases |line|
  {
    SpellsOne(cur);
    if line == "" {
      assert WriteField(cur) + line == WriteField(cur);
    } else {
      var more := line[1..];
      assert line == [line[0]] + more;
      if line[0] == '\t' && !EndsEscaped(cur) {
        if left > 0 {
          ScanIsWritten(more, "", left - 1);
          if Scan(more, "", left - 1).Some? { NextField(cur, more, Scan(more, "", left - 1)); }
        }
      } else {
        var next := (if line[0] == '\t' then cur[..|cur| - 1] else cur) + [line[0]];
        ScanIsWritten(more, next, left);
        NextChar(cur, line[0], more, Scan(more, next, left));
      }
    }
  }

  lemma {:induction false} ScanMoreTab(r: Fields)
    requires |r| > 0 && forall i :: 0 <= i < |r| ==> !EndsEscaped(r[i])
    ensures Scan(WriteRow(r) + "\t", "", |r| - 1) == Some(r)
    decreases |r|
  {
    assert "" + r[0] == r[0];
    if |r| == 1 {
      ScanField(r[0], "\t", "", 0);
      assert [r[0]] == r;
    } else {
      var rest := "\t" + (WriteRow(r[1..]) + "\t");
      assert WriteRow(r) + "\t" == WriteField(r[0]) + rest;
      ScanField(r[0], rest, "", |r| - 1);
      assert rest[1..] == WriteRow(r[1..]) + "\t";
      ScanMoreTab(r[1..]);
      assert [r[0]] + r[1..] == r;
    }
  }

  /** A line is read as a row exactly when it is what the row is written as, except that one
      more tab may follow. */
  lemma ScanExact(line: string, r: Fields)
    requires |r| > 0
    ensures Scan(line, "", |r| - 1) == Some(r) <==> Spells(line, r)
  {
    if Scan(line, "", |r| - 1) == Some(r) {
      ScanIsWritten(line, "", |r| - 1);
      assert WriteField("") + line == line;
    }
    if Spells(line, r) {
      if line == WriteRow(r) { ScanRow(r); } else { ScanMoreTab(r); }
    }
  }

  // ----- the programs -----

  /** What is left to read, once `rows` have been collected. */
  ghost predicate Pending(input: string, rows: seq<Fields>, ahead: string, num: nat, size: nat)
    requires num > 0 && size >= BufSize
  {
    ReadAll(input, num) == Prepend(rows, ReadFrom(ahead, num, size))
  }

  /** What one call of `BIO_gets` brings: the end, a comment, part of a line, or the rest of one. */
  datatype Chunk = AtEnd | Comment(text: string) | Partial(buf: string) | Complete(line: string)

  method ReadChunk(buf: string, rest: string, size: nat) returns (c: Chunk, rest': string)
    requires |buf| + 1 < size && '\n' !in buf && (buf != "" ==> buf[0] != '#')
    ensures |rest'| < |rest| || c.AtEnd?
    ensures match c
      case AtEnd => rest == ""
      case Comment(got) => buf == "" && rest == got + rest' && got != "" && got[0] == '#' && got == Gets(rest, size)
      case Partial(more) =>
        && buf + rest == more + rest' && '\n' !in more && more != "" && more[0] != '#'
        && |more| < size && (rest' != "" ==> |more| == size - 1)
      case Complete(line) =>
        buf + rest == line + "\n" + rest' && '\n' !in line && (line != "" ==> line[0] != '#') && |line| + 1 < size
  {
    var got := Gets(rest, size - |buf|);
    if got == "" {
      return AtEnd, rest;
    }
    TakeFront(buf, rest, got);
    rest' := rest[|got|..];
    if buf == "" && got[0] == '#' {
      return Comment(got), rest';
    }
    var more := buf + got;
    NewlineOnlyLast(buf, got);
    if more[|more| - 1] != '\n' {
      return Partial(more), rest';
    }
    c := Complete(more[..|more| - 1]);
  }

  lemma NewlineOnlyLast(buf: string, got: string)
    requires '\n' !in buf && got != "" && forall i :: 0 <= i < |got| - 1 ==> got[i] != '\n'
    ensures var more := buf + got;
      if more[|more| - 1] == '\n' then '\n' !in more[..|more| - 1] && more == more[..|more| - 1] + "\n"
      else '\n' !in more
  {
    var more := buf + got;
    assert forall i :: 0 <= i < |more| - 1 ==> more[i] != '\n';
  }

  /** Reading through the growing buffer gives the rows of the text, however the lines fall
      across the buffer. */
  method ReadDb(input: string, num: nat) returns (r: Option<seq<Fields>>)
    requires num > 0
    ensures r == ReadAll(input, num)
  {
    var rows: seq<Fields> := [];
    var rest := input;
    var size := BufSize;
    var buf := "";
    PendingStart(input, num);
    while true
      invariant size >= BufSize && |buf| < size
      invariant '\n' !in buf && (buf != "" ==> buf[0] != '#')
      invariant buf != "" && rest != "" ==> |buf| == size - 1
      invariant Pending(input, rows, buf + rest, num, size)
      decreases |rest|
    {
      if buf != "" {
        GrowNow(buf, rest, num, size);
        size := size + BufSize;
      }
      var c, rest' := ReadChunk(buf, rest, size);
      match c {
        case AtEnd =>
          assert buf + rest == buf;
          NoMoreLines(input, rows, buf, num, size);
          return Some(rows);
        case Comment(got) =>
          assert buf + rest == rest && buf + rest' == rest';
          assert rest[|got|..] == rest';
        case Partial(more) =>
          buf := more;
        case Complete(line) =>
          PendingLine(input, rows, line, rest', num, size);
          var row := Scan(line, "", num - 1);
          if row == None {
            return None;
          }
          rows := rows + [row.value];
          buf := "";
          assert buf + rest' == rest';
      }
      rest := rest';
    }
  }

  /** A full buffer without a newline grows before the line is complete. */
  lemma GrowNow(buf: string, rest: string, num: nat, size: nat)
    requires num > 0 && size >= BufSize && buf != "" && buf[0] != '#' && '\n' !in buf
    requires rest != "" ==> |buf| == size - 1
    ensures ReadFrom(buf + rest, num, size) == ReadFrom(buf + rest, num, size + BufSize)
  {
    var text := buf + rest;
    var k := FindNewline(text);
    assert text[0] == buf[0];
    if k < |text| {
      assert k >= |buf|;
      assert Grown(size, k + 1) == Grown(size + BufSize, k + 1);
    }
  }

  lemma PendingStart(input: string, num: nat)
    requires num > 0
    ensures Pending(input, [], "" + input, num, BufSize)
  {
    assert "" + input == input;
    assert ReadAll(input, num).Some? ==> [] + ReadAll(input, num).value == ReadAll(input, num).value;
  }

  lemma TakeFront(buf: string, rest: string, got: string)
    requires got <= rest
    ensures buf + rest == buf + got + rest[|got|..]
    ensures got + rest[|got|..] == rest
    ensures buf == "" ==> buf + rest == rest
  {
  }

  lemma NoMoreLines(input: string, rows: seq<Fields>, ahead: string, num: nat, size: nat)
    requires num > 0 && size >= BufSize && Pending(input, rows, ahead, num, size)
    requires '\n' !in ahead && (ahead != "" ==> ahead[0] != '#')
    ensures ReadAll(input, num) == Some(rows)
  {
    assert FindNewline(ahead) == |ahead|;
    assert rows + [] == rows;
  }

  lemma PendingLine(input: string, rows: seq<Fields>, line: string, rest: string, num: nat, size: nat)
    requires num > 0 && size >= BufSize && '\n' !in line && (line == "" || line[0] != '#') && |line| + 1 < size
    requires Pending(input, rows, line + "\n" + rest, num, size)
    ensures var row := Scan(line, "", num - 1);
      && (row.None? ==> ReadAll(input, num) == None)
      && (row.Some? ==> Pending(input, rows + [row.value], rest, num, size))
  {
    ReadFirstLine(line, rest, num, size);
    var row := Scan(line, "", num - 1);
    if row.Some? { PrependRow(rows, row.value, ReadFrom(rest, num, size)); }
  }

  lemma PrependRow(rows: seq<Fields>, row: Fields, more: Option<seq<Fields>>)
    ensures Prepend(rows, Prepend([row], more)) == Prepend(rows + [row], more)
  {
    if more.Some? { assert rows + ([row] + more.value) == rows + [row] + more.value; }
  }

  // ----- comments -----

  /** The rows of a text when whole lines that start with '#' are skipped. */
  function ReadLines(text: string, num: nat): (r: Option<seq<Fields>>)
    requires num > 0
    decreases |text|
  {
    var k := FindNewline(text);
    if k == |text| then Some([])
    else if text[0] == '#' then ReadLines(text[k + 1..], num)
    else
      match Scan(text[..k], "", num - 1)
      case None => None
      case Some(row) => Prepend([row], ReadLines(text[k + 1..], num))
  }

  /** Every piece of a complete comment line, as the buffer cuts it, starts with '#' again. */
  predicate CommentsWhole(text: string, size: nat)
    requires size >= BufSize
    decreases |text|
  {
    var k := FindNewline(text);
    if k == |text| then true
    else if text[0] != '#' then CommentsWhole(text[k + 1..], Grown(size, k + 1))
    else
      var g := |Gets(text, size)|;
      (g == k + 1 || text[g] == '#') && CommentsWhole(text[g..], size)
  }

  lemma SkipPiece(text: string, g: nat, num: nat)
    requires num > 0 && 0 < g <= FindNewline(text) < |text| && text[0] == '#'
    ensures var k := FindNewline(text);
      && FindNewline(text[g..]) == k - g && text[g..][k - g + 1..] == text[k + 1..]
      && (text[g] == '#' ==> ReadLines(text[g..], num) == ReadLines(text, num))
  {
    var k := FindNewline(text);
    assert text == text[..k] + "\n" + text[k + 1..];
    assert text[g..] == text[g..k] + "\n" + text[k + 1..];
    FindNewlineAfter(text[g..k], text[k + 1..]);
    assert text[g..][0] == text[g];
  }

  /** Without a complete line there is nothing to read. */
  lemma {:induction false} IncompleteLine(text: string, num: nat, size: nat)
    requires num > 0 && size >= BufSize && FindNewline(text) == |text|
    ensures ReadFrom(text, num, size) == Some([])
    decreases |text|
  {
    if text != "" && text[0] == '#' {
      var g := |Gets(text, size)|;
      assert forall i :: 0 <= i < |text[g..]| ==> text[g..][i] == text[g + i];
      IncompleteLine(text[g..], num, size);
    }
  }

  lemma {:induction false} WholeCommentsAreSkipped(text: string, num: nat, size: nat)
    requires num > 0 && size >= BufSize && CommentsWhole(text, size)
    ensures ReadFrom(text, num, size) == ReadLines(text, num)
    decreases |text|
  {
    var k := FindNewline(text);
    if k == |text| {
      IncompleteLine(text, num, size);
    } else if text[0] != '#' {
      WholeCommentsAreSkipped(text[k + 1..], num, Grown(size, k + 1));
    } else {
      var g := |Gets(text, size)|;
      PieceIsSkipped(text, num, size);
      WholeCommentsAreSkipped(text[g..], num, size);
    }
  }

  /** The piece of a line from position `g` to the newline at `k`, as a line. */
  lemma PieceAsLine(text: string, g: nat, k: nat)
    requires g <= k < |text| && text[k] == '\n'
    ensures text[g..] == text[g..k] + "\n" + text[k + 1..]
  {
    assert text[g..] == text[g..k] + ([text[k]] + text[k + 1..]);
  }

  lemma ReadsFromPiece(text: string, num: nat, size: nat)
    requires num > 0 && size >= BufSize && text != "" && text[0] == '#'
    ensures ReadFrom(text, num, size) == ReadFrom(text[|Gets(text, size)|..], num, size)
  {
  }

  /** A piece that does not start with '#' is read as a row. */
  lemma LeftoverIsRow(text: string, num: nat, size: nat, k: nat, g: nat)
    requires num > 0 && size >= BufSize && text != "" && text[0] == '#'
    requires k == FindNewline(text) && g == |Gets(text, size)| && g <= k < |text| && text[g] != '#'
    ensures OneAhead(ReadFrom(text, num, size), ReadFrom(text[k + 1..], num, Grown(size, k - g + 1)))
  {
    ReadsFromPiece(text, num, size);
    PieceAsLine(text, g, k);
    OneRowMore(text[g..k], text[k + 1..], num, size);
  }

  ghost predicate OneAhead(r: Option<seq<Fields>>, more: Option<seq<Fields>>) {
    r.Some? ==> more.Some? && |r.value| == |more.value| + 1
  }

  lemma OneRowMore(line: string, rest: string, num: nat, size: nat)
    requires num > 0 && size >= BufSize && '\n' !in line && (line == "" || line[0] != '#')
    ensures OneAhead(ReadFrom(line + "\n" + rest, num, size), ReadFrom(rest, num, Grown(size, |line| + 1)))
  {
    ReadFirstLine(line, rest, num, size);
  }

  lemma CommentLine(text: string, num: nat, k: nat)
    requires num > 0 && k == FindNewline(text) < |text| && text[0] == '#'
    ensures ReadLines(text, num) == ReadLines(text[k + 1..], num)
  {
  }

  lemma PieceIsSkipped(text: string, num: nat, size: nat)
    requires num > 0 && size >= BufSize
    requires var k, g := FindNewline(text), |Gets(text, size)|;
      k < |text| && text[0] == '#' && (g == k + 1 || text[g] == '#')
    ensures var g := |Gets(text, size)|;
      && ReadFrom(text, num, size) == ReadFrom(text[g..], num, size)
      && ReadLines(text, num) == ReadLines(text[g..], num)
      && CommentsWhole(text, size) == CommentsWhole(text[g..], size)
  {
    var k, g := FindNewline(text), |Gets(text, size)|;
    if g < k + 1 { SkipPiece(text, g, num); }
  }

  lemma LineIsRow(text: string, num: nat, size: nat)
    requires num > 0 && size >= BufSize && FindNewline(text) < |text| && text[0] != '#'
    requires ReadLines(text, num).Some? && ReadFrom(text, num, size).Some?
    ensures var k := FindNewline(text);
      var rest, lines := ReadFrom(text[k + 1..], num, Grown(size, k + 1)), ReadLines(text[k + 1..], num);
      && rest.Some? && |ReadFrom(text, num, size).value| == |rest.value| + 1
      && lines.Some? && |ReadLines(text, num).value| == |lines.value| + 1
      && CommentsWhole(text, size) == CommentsWhole(text[k + 1..], Grown(size, k + 1))
  {
  }

  /** How many rows more are read than there are, beyond the one that a comment adds which is
      not skipped whole. */
  ghost function Surplus(text: string, num: nat, size: nat): int
    requires num > 0 && size >= BufSize
  {
    if ReadLines(text, num).None? || ReadFrom(text, num, size).None? then 0
    else |ReadFrom(text, num, size).value| - |ReadLines(text, num).value| - if CommentsWhole(text, size) then 0 else 1
  }

  lemma LineSurplus(text: string, num: nat, size: nat)
    requires num > 0 && size >= BufSize && FindNewline(text) < |text| && text[0] != '#'
    requires var k := FindNewline(text); Surplus(text[k + 1..], num, Grown(size, k + 1)) >= 0
    ensures Surplus(text, num, size) >= 0
  {
    if ReadLines(text, num).Some? && ReadFrom(text, num, size).Some? { LineIsRow(text, num, size); }
  }

  /** The rest of a text, read with a larger buffer, has the same lines and one row less is read. */
  ghost predicate OneRowLess(text: string, size: nat, rest: string, grown: nat, num: nat)
    requires num > 0 && size >= BufSize && grown >= BufSize
  {
    ReadLines(text, num) == ReadLines(rest, num) && OneAhead(ReadFrom(text, num, size), ReadFrom(rest, num, grown))
  }

  lemma LeftoverCounts(text: string, num: nat, size: nat, k: nat, g: nat)
    requires num > 0 && size >= BufSize && text != "" && text[0] == '#'
    requires k == FindNewline(text) && g == |Gets(text, size)| && g <= k < |text| && text[g] != '#'
    ensures OneRowLess(text, size, text[k + 1..], Grown(size, k - g + 1), num)
  {
    CommentLine(text, num, k);
    LeftoverIsRow(text, num, size, k, g);
  }

  lemma OneMoreRow(text: string, size: nat, rest: string, grown: nat, num: nat)
    requires num > 0 && size >= BufSize && grown >= BufSize && OneRowLess(text, size, rest, grown, num)
    requires Surplus(rest, num, grown) >= 0
    ensures Surplus(text, num, size) >= 0
  {
  }

  lemma IncompleteSurplus(text: string, num: nat, size: nat)
    requires num > 0 && size >= BufSize && FindNewline(text) == |text|
    ensures Surplus(text, num, size) >= 0
  {
    IncompleteLine(text, num, size);
  }

  lemma PieceSurplus(text: string, num: nat, size: nat)
    requires num > 0 && size >= BufSize
    requires var k, g := FindNewline(text), |Gets(text, size)|;
      k < |text| && text[0] == '#' && (g == k + 1 || text[g] == '#') && Surplus(text[g..], num, size) >= 0
    ensures Surplus(text, num, size) >= 0
  {
    PieceIsSkipped(text, num, size);
  }

  /** No row is lost, and a comment that is not skipped whole adds one. */
  lemma {:induction false} SplitCommentAddsRow(text: string, num: nat, size: nat)
    requires num > 0 && size >= BufSize
    ensures Surplus(text, num, size) >= 0
    decreases |text|
  {
    var k, g := FindNewline(text), |Gets(text, size)|;
    if k == |text| {
      IncompleteSurplus(text, num, size);
    } else if text[0] != '#' {
      SplitCommentAddsRow(text[k + 1..], num, Grown(size, k + 1));
      LineSurplus(text, num, size);
    } else if g == k + 1 || text[g] == '#' {
      SplitCommentAddsRow(text[g..], num, size);
      PieceSurplus(text, num, size);
    } else {
      SplitCommentAddsRow(text[k + 1..], num, Grown(size, k - g + 1));
      LeftoverCounts(text, num, size, k, g);
      OneMoreRow(text, size, text[k + 1..], Grown(size, k - g + 1), num);
    }
  }

  /** A text whose lines form a table is read as that table exactly when its comments are
      skipped whole. */
  lemma CommentsExact(text: string, num: nat)
    requires num > 0 && ReadLines(text, num).Some?
    ensures ReadAll(text, num) == ReadLines(text, num) <==> CommentsWhole(text, BufSize)
  {
    if CommentsWhole(text, BufSize) {
      WholeCommentsAreSkipped(text, num, BufSize);
    } else if ReadAll(text, num).Some? {
      SplitCommentAddsRow(text, num, BufSize);
    }
  }

  /** The rest of a longer comment is read as a line of its own, whatever it says. */
  lemma LongCommentIsSplit(comment: string, row: Fields, num: nat)
    requires num > 0 && |row| == num && Storable(row)
    requires |comment| == BufSize - 1 && comment[0] == '#' && '\n' !in comment
    ensures ReadAll(comment + (WriteRow(row) + "\n"), num) == Some([row])
    ensures ReadLines(comment + (WriteRow(row) + "\n"), num) == Some([])
  {
    var w := WriteRow(row);
    WrittenLine(row);
    CommentPieces(comment, w, num);
    ReadLine(w, row, "", BufSize);
    assert w + "\n" + "" == w + "\n" && [row] + [] == [row];
  }

  lemma CommentPieces(comment: string, w: string, num: nat)
    requires num > 0 && |comment| == BufSize - 1 && comment[0] == '#' && '\n' !in comment && '\n' !in w
    ensures ReadAll(comment + (w + "\n"), num) == ReadFrom(w + "\n", num, BufSize)
    ensures ReadLines(comment + (w + "\n"), num) == Some([])
  {
    var text := comment + (w + "\n");
    assert text == (comment + w) + "\n" + "";
    FindNewlineAfter(comment + w, "");
    assert |Gets(text, BufSize)| == |comment| && text[|comment|..] == w + "\n";
    assert text[|text|..] == "";
  }

  // ----- the writing program -----

  method WriteDb(rows: seq<Fields>) returns (text: string)
    requires forall i :: 0 <= i < |rows| ==> |rows[i]| > 0
    ensures text == WriteAll(rows)
  {
    text := "";
    var i := 0;
    while i < |rows|
      invariant 0 <= i <= |rows|
      invariant text + WriteAll(rows[i..]) == WriteAll(rows)
    {
      var p := WriteLine(rows[i]);
      assert rows[i..][1..] == rows[i + 1..];
      assert text + (WriteRow(rows[i]) + "\n" + WriteAll(rows[i + 1..])) == text + p + WriteAll(rows[i + 1..]);
      text := text + p;
      i := i + 1;
    }
    assert rows[i..] == [];
  }

  /** One line: every field is followed by a tab, and the last tab becomes a newline. */
  method WriteLine(row: Fields) returns (p: string)
    requires |row| > 0
    ensures p == WriteRow(row) + "\n"
  {
    p := "";
    var j := 0;
    while j < |row|
      invariant 0 <= j <= |row|
      invariant j < |row| ==> p + WriteRow(row[j..]) == WriteRow(row)
      invariant j == |row| ==> p == WriteRow(row) + "\t"
    {
      var f := row[j];
      ghost var start := p;
      var k := 0;
      while k < |f|
        invariant 0 <= k <= |f|
        invariant p + WriteField(f[k..]) == start + WriteField(f)
      {
        assert f[k..][1..] == f[k + 1..];
        ghost var was := p;
        if f[k] == '\t' {
          p := p + "\\";
        }
        p := p + [f[k]];
        assert p + WriteField(f[k + 1..]) == was + WriteField(f[k..]);
        k := k + 1;
      }
      assert f[k..] == "" && p == start + WriteField(f);
      p := p + "\t";
      assert row[j..][1..] == row[j + 1..];
      if j + 1 < |row| {
        assert start + WriteRow(row[j..]) == p + WriteRow(row[j + 1..]);
      }
      j := j + 1;
    }
    p := p[..|p| - 1] + "\n";
  }

  /** A field that ends in a backslash swallows the separator after it. */
  lemma TrailingBackslashIsLost()
    ensures ReadAll(WriteAll([["a\\", "b"]]), 2) != Some([["a\\", "b"]])
  {
    var rows := [["a\\", "b"]];
    assert EndsEscaped(rows[0][0]);
    FileRoundTrip(rows, 2);
  }
}
