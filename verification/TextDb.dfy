/**
 The text database under the certificate index: one row per line, fields separated by tabs,
 a tab inside a field escaped by a backslash, lines starting with '#' ignored.
 */
module TextDb {
  import opened Common

  datatype Row = Row(
    kind: string, expiry: string, revocation: string, serial: string, file: string, name: string)

  const NUM_FIELDS := 6

  function Fields(r: Row): (fs: seq<string>)
    ensures |fs| == NUM_FIELDS
  {
    [r.kind, r.expiry, r.revocation, r.serial, r.file, r.name]
  }

  function FromFields(fs: seq<string>): Row
    requires |fs| >= NUM_FIELDS
  {
    Row(fs[0], fs[1], fs[2], fs[3], fs[4], fs[5])
  }

  // ----- writing

  function Escape(f: string): string {
    if f == "" then ""
    else (if f[0] == '\t' then "\\\t" else [f[0]]) + Escape(f[1..])
  }

  function EncodeFields(fs: seq<string>): string
    requires |fs| >= 1
  {
    if |fs| == 1 then Escape(fs[0]) else Escape(fs[0]) + "\t" + EncodeFields(fs[1..])
  }

  function EncodeRow(r: Row): string {
    EncodeFields(Fields(r)) + "\n"
  }

  /** TXT_DB_write() */
  function Encode(rows: seq<Row>): string {
    if rows == [] then "" else EncodeRow(rows[0]) + Encode(rows[1..])
  }

  // ----- reading

  predicate EndsInBackslash(s: string) {
    s != "" && s[|s| - 1] == '\\'
  }

  /**
   The fields of a line when the current field already holds cur. A tab right after a
   backslash replaces that backslash; any other tab ends the field.
   */
  function Split(s: string, cur: string): (fs: seq<string>)
    ensures |fs| >= 1
    decreases |s|
  {
    if s == "" then [cur]
    else if s[0] != '\t' then Split(s[1..], cur + [s[0]])
    else if EndsInBackslash(cur) then Split(s[1..], cur[..|cur| - 1] + "\t")
    else [cur] + Split(s[1..], "")
  }

  /** A line must hold the right number of fields; a single further tab at its end is ignored. */
  function DecodeRow(line: string): Option<Row> {
    var fs := Split(line, "");
    if |fs| == NUM_FIELDS || (|fs| == NUM_FIELDS + 1 && fs[NUM_FIELDS] == "")
    then Some(FromFields(fs)) else None
  }

  predicate IsComment(line: string) {
    line != "" && line[0] == '#'
  }

  /** TXT_DB_read() line by line; text after the last newline is dropped. */
  function Decode(text: string): Option<seq<Row>>
    decreases |text|
  {
    var n := IndexOf(text, '\n');
    if n == |text| then Some([])
    else
      var line, rest := text[..n], text[n + 1..];
      if IsComment(line) then Decode(rest)
      else Prepend(DecodeRow(line), Decode(rest))
  }

  function Prepend(r: Option<Row>, rows: Option<seq<Row>>): Option<seq<Row>> {
    if r.None? || rows.None? then None else Some([r.value] + rows.value)
  }

  // ----- the loops

  /** What the writing loop still has to add: every field is followed by a tab. */
  function Pending(fs: seq<string>): string {
    if fs == [] then "" else EncodeFields(fs) + "\t"
  }

  lemma PendingStep(out: string, fs: seq<string>)
    requires fs != []
    ensures out + Pending(fs) == (out + Escape(fs[0]) + "\t") + Pending(fs[1..])
  {
    assert Pending(fs) == Escape(fs[0]) + "\t" + Pending(fs[1..]);
  }

  method WriteField(f: string) returns (out: string)
    ensures out == Escape(f)
  {
    out := "";
    for k := 0 to |f|
      invariant out + Escape(f[k..]) == Escape(f)
    {
      if f[k] == '\t' {
        out := out + "\\";
      }
      out := out + [f[k]];
      assert f[k..][1..] == f[k + 1..];
    }
  }

  method WriteFields(fs: seq<string>) returns (out: string)
    requires |fs| >= 1
    ensures out == EncodeFields(fs) + "\n"
  {
    out := "";
    for j := 0 to |fs|
      invariant out + Pending(fs[j..]) == Pending(fs)
    {
      var text := WriteField(fs[j]);
      PendingStep(out, fs[j..]);
      assert fs[j..][1..] == fs[j + 1..];
      out := out + text + "\t";
    }
    assert out == Pending(fs);
    out := out[..|out| - 1] + "\n";
  }

  /** The character loop of TXT_DB_read() over one line. */
  method ReadFields(line: string) returns (r: Option<Row>)
    ensures r == DecodeRow(line)
  {
    var fs: seq<string>, cur, esc, f := [], "", false, 0;
    while f < |line|
      invariant 0 <= f <= |line| && |fs| < NUM_FIELDS
      invariant esc == EndsInBackslash(cur)
      invariant Split(line, "") == fs + Split(line[f..], cur)
    {
      assert line[f..][1..] == line[f + 1..];
      if line[f] == '\t' {
        if esc {
          cur := cur[..|cur| - 1];
        } else {
          fs, f := fs + [cur], f + 1;
          cur := "";
          assert Split(line, "") == fs + Split(line[f..], cur);
          if |fs| >= NUM_FIELDS {
            break;
          }
          continue;
        }
      }
      esc := line[f] == '\\';
      cur, f := cur + [line[f]], f + 1;
    }
    if |fs| == NUM_FIELDS {
      // the loop was left at a tab after the last field
      ghost var more := Split(line[f..], "");
      assert |more| == 1 ==> more == [more[0]];
      SplitEmptyField(line[f..]);
      return if f == |line| then Some(FromFields(fs)) else None;
    }
    assert line[f..] == "";
    fs := fs + [cur];
    return if |fs| == NUM_FIELDS then Some(FromFields(fs)) else None;
  }

  lemma {:induction false} SplitEmptyField(s: string)
    ensures Split(s, "") == [""] <==> s == ""
  {
    if s != "" && s[0] != '\t' {
      assert "" + [s[0]] == [s[0]];
      SplitKeeps(s[1..], [s[0]]);
    }
  }

  /** A field that has begun never becomes empty again. */
  lemma {:induction false} SplitKeeps(s: string, cur: string)
    requires cur != ""
    ensures Split(s, cur)[0] != ""
    decreases |s|
  {
    if s != "" {
      if s[0] != '\t' {
        SplitKeeps(s[1..], cur + [s[0]]);
      } else if EndsInBackslash(cur) {
        SplitKeeps(s[1..], cur[..|cur| - 1] + "\t");
      }
    }
  }

  // ----- saving and loading again

  lemma SplitEscapedTab(tail: string, cur: string)
    ensures Split("\\\t" + tail, cur) == Split(tail, cur + "\t")
  {
    var s := "\\\t" + tail;
    assert s[1..] == "\t" + tail && s[1..][1..] == tail;
    assert (cur + "\\")[..|cur|] == cur;
  }

  lemma {:induction false} SplitEscape(f: string, rest: string, cur: string)
    ensures Split(Escape(f) + rest, cur) == Split(rest, cur + f)
    decreases |f|
  {
    if f == "" {
      assert Escape(f) + rest == rest && cur + f == cur;
    } else {
      var tail := Escape(f[1..]) + rest;
      SplitEscape(f[1..], rest, cur + [f[0]]);
      assert cur + [f[0]] + f[1..] == cur + f;
      if f[0] == '\t' {
        assert Escape(f) + rest == "\\\t" + tail;
        SplitEscapedTab(tail, cur);
      } else {
        assert Escape(f) + rest == [f[0]] + tail;
      }
    }
  }

  /** No field but the last ends in a backslash. */
  predicate Separable(fs: seq<string>) {
    forall i | 0 <= i < |fs| - 1 :: !EndsInBackslash(fs[i])
  }

  lemma {:induction false} SplitEncoded(fs: seq<string>, cur: string)
    requires |fs| >= 1 && !EndsInBackslash(cur)
    ensures Separable(fs) ==> Split(EncodeFields(fs), cur) == [cur + fs[0]] + fs[1..]
    ensures !Separable(fs) ==> |Split(EncodeFields(fs), cur)| < |fs|
    ensures |Split(EncodeFields(fs), cur)| <= |fs|
    decreases |fs|
  {
    var f := fs[0];
    if |fs| == 1 {
      SplitEscape(f, "", cur);
      assert Escape(f) + "" == Escape(f);
    } else {
      var rest := EncodeFields(fs[1..]);
      SplitEscape(f, "\t" + rest, cur);
      assert EncodeFields(fs) == Escape(f) + ("\t" + rest);
      assert ("\t" + rest)[1..] == rest;
      assert EndsInBackslash(cur + f) <==> EndsInBackslash(f);
      assert Separable(fs) <==> !EndsInBackslash(f) && Separable(fs[1..]) by { SeparableCons(fs); }
      if EndsInBackslash(f) {
        SplitEncoded(fs[1..], (cur + f)[..|cur + f| - 1] + "\t");
      } else {
        SplitEncoded(fs[1..], "");
        assert "" + fs[1] == fs[1];
        assert [fs[1]] + fs[2..] == fs[1..];
      }
    }
  }

  lemma SeparableCons(fs: seq<string>)
    requires |fs| >= 2
    ensures Separable(fs) <==> !EndsInBackslash(fs[0]) && Separable(fs[1..])
  {
    assert forall i | 0 <= i < |fs| - 2 :: fs[1..][i] == fs[i + 1];
    if !EndsInBackslash(fs[0]) && Separable(fs[1..]) {
      forall i | 0 <= i < |fs| - 1 ensures !EndsInBackslash(fs[i]) {
        if i > 0 { assert fs[1..][i - 1] == fs[i]; }
      }
    }
  }

  predicate OneLine(r: Row) {
    forall i | 0 <= i < NUM_FIELDS :: '\n' !in Fields(r)[i]
  }

  /** A row that a saved file keeps. */
  predicate FileSafe(r: Row) {
    !IsComment(r.kind) && Separable(Fields(r))
  }

  lemma {:induction false} EscapeOneLine(f: string)
    ensures '\n' in Escape(f) <==> '\n' in f
    ensures IsComment(Escape(f)) <==> IsComment(f)
  {
    if f != "" {
      EscapeOneLine(f[1..]);
      assert f == [f[0]] + f[1..];
    }
  }

  lemma {:induction false} EncodeOneLine(fs: seq<string>)
    requires |fs| >= 1 && forall i | 0 <= i < |fs| :: '\n' !in fs[i]
    ensures '\n' !in EncodeFields(fs)
    decreases |fs|
  {
    EscapeOneLine(fs[0]);
    if |fs| > 1 {
      EncodeOneLine(fs[1..]);
    }
  }

  lemma RowRoundTrip(r: Row)
    ensures DecodeRow(EncodeFields(Fields(r))) == if Separable(Fields(r)) then Some(r) else None
    ensures IsComment(EncodeFields(Fields(r))) <==> IsComment(r.kind)
  {
    var fs := Fields(r);
    SplitEncoded(fs, "");
    assert "" + fs[0] == fs[0];
    assert [fs[0]] + fs[1..] == fs;
    EscapeOneLine(fs[0]);
    assert EncodeFields(fs)[..|Escape(fs[0])| + 1] == Escape(fs[0]) + "\t";
  }

  /** Reading a saved database row by row. */
  lemma DecodeStep(r: Row, rest: string)
    requires OneLine(r)
    ensures Decode(EncodeRow(r) + rest) ==
              if IsComment(r.kind) then Decode(rest)
              else Prepend(if Separable(Fields(r)) then Some(r) else None, Decode(rest))
  {
    var line := EncodeFields(Fields(r));
    var text := EncodeRow(r) + rest;
    EncodeOneLine(Fields(r));
    RowRoundTrip(r);
    assert text == line + ['\n'] + rest;
    IndexOfAppend(line, '\n', rest);
    assert text[..|line|] == line && text[|line| + 1..] == rest;
  }

  /** A line must have six fields; a seventh is ignored if it is empty. */
  lemma FieldCount(fs: seq<string>)
    requires |fs| >= 1 && Separable(fs)
    ensures DecodeRow(EncodeFields(fs)).Some? <==> |fs| == 6 || (|fs| == 7 && fs[6] == "")
  {
    SplitEncoded(fs, "");
    assert "" + fs[0] == fs[0];
    assert [fs[0]] + fs[1..] == fs;
  }

  /** Text after the last newline is not read. */
  lemma {:induction false} UnterminatedDropped(text: string, tail: string)
    requires '\n' !in tail && (text == "" || text[|text| - 1] == '\n')
    ensures Decode(text + tail) == Decode(text)
    decreases |text|
  {
    if text == "" {
      assert text + tail == tail;
      IndexOfNone(tail, '\n');
      IndexOfNone(text, '\n');
    } else {
      var n := IndexOf(text, '\n');
      var line, rest := text[..n], text[n + 1..];
      assert text[|text| - 1] in text;
      assert text == line + ['\n'] + rest && text + tail == line + ['\n'] + (rest + tail);
      IndexOfAppend(line, '\n', rest + tail);
      assert (text + tail)[..n] == line && (text + tail)[n + 1..] == rest + tail;
      UnterminatedDropped(rest, tail);
    }
  }

  lemma {:induction false} SplitOneLine(s: string, cur: string)
    requires '\n' !in s && '\n' !in cur
    ensures forall i | 0 <= i < |Split(s, cur)| :: '\n' !in Split(s, cur)[i]
    decreases |s|
  {
    if s != "" {
      if s[0] != '\t' {
        SplitOneLine(s[1..], cur + [s[0]]);
      } else if EndsInBackslash(cur) {
        SplitOneLine(s[1..], cur[..|cur| - 1] + "\t");
      } else {
        SplitOneLine(s[1..], "");
      }
    }
  }

  /** No row that is read holds a line break. */
  lemma {:induction false} ReadRowsOneLine(text: string)
    ensures Decode(text).Some? ==> forall r | r in Decode(text).value :: OneLine(r)
    decreases |text|
  {
    var n := IndexOf(text, '\n');
    if n < |text| {
      SplitOneLine(text[..n], "");
      ReadRowsOneLine(text[n + 1..]);
    }
  }

  lemma {:induction false} FileOfLines(rows: seq<Row>)
    requires forall r | r in rows :: OneLine(r)
    ensures Decode(Encode(rows)) == Some(rows) <==> forall r | r in rows :: FileSafe(r)
    ensures Decode(Encode(rows)).Some? ==> |Decode(Encode(rows)).value| <= |rows|
  {
    if rows != [] {
      var r, rest := rows[0], rows[1..];
      assert rows == [r] + rest;
      FileOfLines(rest);
      DecodeStep(r, Encode(rest));
    }
  }

  /**
   A saved database is read back unchanged exactly when no field holds a line break, no row
   looks like a comment and no field but the last of a row ends in a backslash.
   */
  lemma FileRoundTrip(rows: seq<Row>)
    ensures Decode(Encode(rows)) == Some(rows) <==> forall r | r in rows :: OneLine(r) && FileSafe(r)
  {
    hide Decode, Encode, OneLine, FileSafe;
    ReadRowsOneLine(Encode(rows));
    if forall r | r in rows :: OneLine(r) {
      FileOfLines(rows);
    }
  }

  /** A line that starts with a hash sign is skipped. */
  lemma CommentSkipped(line: string, rest: string)
    requires '\n' !in line
    ensures Decode("#" + line + "\n" + rest) == Decode(rest)
  {
    var text, head := "#" + line + "\n" + rest, "#" + line;
    assert text == head + ['\n'] + rest;
    IndexOfAppend(head, '\n', rest);
    assert text[..|head|] == head && text[|head| + 1..] == rest;
  }

  /** Only tabs are escaped, by a backslash. */
  lemma {:induction false} EscapedTabs(a: string, b: string)
    requires '\t' !in a
    ensures Escape(a) == a && Escape(a + "\t" + b) == a + "\\\t" + Escape(b)
  {
    if a == "" {
      assert a + "\t" + b == "\t" + b && ("\t" + b)[1..] == b;
    } else {
      EscapedTabs(a[1..], b);
      assert (a + "\t" + b)[1..] == a[1..] + "\t" + b;
    }
  }
}
