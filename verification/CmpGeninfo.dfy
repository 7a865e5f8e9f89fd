/** The -geninfo argument of the CMP client: "OID:int:n" and "OID:str:s" items, comma-separated. */
module CmpGeninfo {
  import opened Common
  import opened CNumbers
  import CString

  datatype Value = Int(n: int) | Str(text: string)

  datatype Itav = Itav(oid: string, value: Value)

  /** strncasecmp(s, p, strlen(p)) == 0 */
  predicate HasCasePrefix(s: string, p: string) {
    |p| <= |s| && EqualFold(s[..|p|], p)
  }

  /** A number, and what is left after the item's comma. */
  function ParseInt(t: string): Option<(Value, string)> {
    var (n, end) := StrToL(t);
    var rest := t[end..];
    if end == 0 || (rest != "" && rest[0] != ',') then None
    else Some((Int(n), if rest == "" then "" else rest[1..]))
  }

  /** A text up to the next comma, and what is left after it. */
  function ParseText(t: string): (Value, string) {
    var (text, rest) := Cut(t, ',');
    (Str(text), if rest.None? then "" else rest.value)
  }

  /** The value after the OID and its colon. */
  function ParseValue(s: string): Option<(Value, string)> {
    if HasCasePrefix(s, "int:") then ParseInt(s[4..])
    else if HasCasePrefix(s, "str:") then Some(ParseText(s[4..]))
    else None
  }

  /** One item and the rest of the argument. */
  function ParseItem(oidOk: string -> bool, s: string): Option<(Itav, string)> {
    var (oid, rest) := Cut(s[Blanks(s)..], ':');
    if rest.None? || !oidOk(oid) then None
    else
      var v := ParseValue(rest.value);
      if v.None? then None else Some((Itav(oid, v.value.0), v.value.1))
  }

  lemma ValueShrinks(s: string)
    ensures ParseValue(s).Some? ==> |ParseValue(s).value.1| <= |s|
  {
    hide StrToL, EqualFold, IndexOf;
  }

  /** Every item takes at least its colon from the argument. */
  lemma ItemAdvances(oidOk: string -> bool, s: string)
    ensures ParseItem(oidOk, s).Some? ==> |ParseItem(oidOk, s).value.1| < |s|
  {
    hide ParseValue, IndexOf, Blanks;
    var rest := Cut(s[Blanks(s)..], ':').1;
    if rest.Some? { ValueShrinks(rest.value); }
  }

  /** handle_opt_geninfo(): at least one item; None for any syntax error. */
  function Parse(oidOk: string -> bool, s: string): Option<seq<Itav>>
    decreases |s|
  {
    ItemAdvances(oidOk, s);
    var r := ParseItem(oidOk, s);
    if r.None? then None
    else if r.value.1 == "" then Some([r.value.0])
    else
      var more := Parse(oidOk, r.value.1);
      if more.None? then None else Some([r.value.0] + more.value)
  }

  // ----- the code

  lemma StrDrop(a: seq<char>, i: nat, k: nat)
    requires CString.Terminated(a) && i < |a| && k <= CString.StrLen(a, i)
    ensures CString.StrLen(a, i + k) == CString.StrLen(a, i) - k
    ensures CString.Str(a, i + k) == CString.Str(a, i)[k..]
  {
    CString.StrLenIs(a, i + k, CString.StrLen(a, i) - k);
  }

  lemma BlanksFrom(s: string, i: nat)
    requires i <= |s|
    ensures Blanks(s[i..]) == if i < |s| && IsSpace(s[i]) then 1 + Blanks(s[i + 1..]) else 0
  {
    if i < |s| { assert s[i..][1..] == s[i + 1..]; }
  }

  method SkipBlanks(a: array<char>, from: nat) returns (ptr: nat)
    requires CString.Terminated(a[..]) && from < a.Length
    ensures from <= ptr < a.Length
    ensures var s := CString.Str(a[..], from);
            ptr == from + Blanks(s) && CString.Str(a[..], ptr) == s[Blanks(s)..]
  {
    hide CString.StrLen, Blanks;
    ghost var s := CString.Str(a[..], from);
    ptr := from;
    while IsSpace(a[ptr])
      invariant from <= ptr <= from + |s|
      invariant Blanks(s) == ptr - from + Blanks(s[ptr - from..])
      decreases a.Length - ptr
    {
      assert ptr < from + |s| && s[ptr - from] == a[ptr];
      BlanksFrom(s, ptr - from);
      ptr := ptr + 1;
    }
    if ptr < from + |s| { assert s[ptr - from] == a[ptr]; }
    BlanksFrom(s, ptr - from);
    StrDrop(a[..], from, ptr - from);
  }

  method ReadInt(a: array<char>, from: nat) returns (r: Option<Value>, ptr: nat)
    requires CString.Terminated(a[..]) && from < a.Length
    ensures from <= ptr < a.Length
    ensures var v := ParseInt(CString.Str(a[..], from));
            if r.None? then v.None? else v == Some((r.value, CString.Str(a[..], ptr)))
  {
    hide StrToL;
    var (n, end) := StrToL(CString.Str(a[..], from));
    if end == 0 {
      return None, from;
    }
    ptr := from + end;
    StrDrop(a[..], from, end);
    if a[ptr] != '\0' {
      assert CString.Str(a[..], ptr)[0] == a[ptr];
      if a[ptr] != ',' {
        return None, from;
      }
      StrDrop(a[..], ptr, 1);
      ptr := ptr + 1;
    }
    r := Some(Int(n));
  }

  /** The comma that ends a text is overwritten. */
  method ReadText(a: array<char>, from: nat) returns (r: Value, ptr: nat)
    requires CString.Terminated(a[..]) && from < a.Length
    modifies a
    ensures CString.Terminated(a[..]) && from <= ptr < a.Length
    ensures (r, CString.Str(a[..], ptr)) == ParseText(old(CString.Str(a[..], from)))
    ensures forall i | 0 <= i < from :: a[i] == old(a[i])
  {
    hide CString.StrLen, IndexOf;
    ghost var s := CString.Str(a[..], from);
    var p := CString.CutInPlace(a, from, ',');
    r := Str(CString.Str(a[..], from));
    if p == -1 {
      var n := CString.StrLen(a[..], from);
      ptr := from + n;
      StrDrop(a[..], from, n);
      assert s[n..] == "";
    } else {
      ptr := p + 1;
    }
  }

  /** The value of one item, read from a position on. */
  method ReadValue(a: array<char>, from: nat) returns (r: Option<Value>, ptr: nat)
    requires CString.Terminated(a[..]) && from < a.Length
    modifies a
    ensures CString.Terminated(a[..]) && ptr < a.Length
    ensures var v := ParseValue(old(CString.Str(a[..], from)));
            && (if r.None? then v.None? else v == Some((r.value, CString.Str(a[..], ptr))) && from < ptr)
    ensures forall i | 0 <= i < from :: a[i] == old(a[i])
  {
    hide ParseInt, ParseText, CString.StrLen;
    var here := CString.Str(a[..], from);
    if HasCasePrefix(here, "int:") {
      StrDrop(a[..], from, 4);
      r, ptr := ReadInt(a, from + 4);
    } else if HasCasePrefix(here, "str:") {
      StrDrop(a[..], from, 4);
      var text: Value;
      text, ptr := ReadText(a, from + 4);
      r := Some(text);
    } else {
      r, ptr := None, from;
    }
  }

  /** One turn of the loop: the colon after the OID is overwritten, too. */
  method ReadItem(oidOk: string -> bool, a: array<char>, from: nat) returns (r: Option<Itav>, ptr: nat)
    requires CString.Terminated(a[..]) && from < a.Length
    modifies a
    ensures CString.Terminated(a[..]) && ptr < a.Length
    ensures var v := ParseItem(oidOk, old(CString.Str(a[..], from)));
            && (if r.None? then v.None? else v == Some((r.value, CString.Str(a[..], ptr))) && from < ptr)
  {
    hide ParseValue, CString.StrLen, Blanks;
    var at := SkipBlanks(a, from);
    var p := CString.CutInPlace(a, at, ':');
    if p == -1 {
      return None, from;
    }
    var oid := CString.Str(a[..], at);
    if !oidOk(oid) {
      return None, from;
    }
    var v: Option<Value>;
    v, ptr := ReadValue(a, p + 1);
    r := if v.None? then None else Some(Itav(oid, v.value));
  }

  /** handle_opt_geninfo() on the argument in place. */
  method HandleGeninfo(oidOk: string -> bool, text: string) returns (r: Option<seq<Itav>>)
    requires '\0' !in text
    ensures r == Parse(oidOk, text)
  {
    hide ParseItem, CString.StrLen;
    var a := CString.Dup(text);
    CString.StrLenIs(a[..], 0, |text|);
    assert CString.Str(a[..], 0) == text;
    var ptr, items: seq<Itav> := 0, [];
    ghost var goal := Parse(oidOk, text);
    assert goal.Some? ==> [] + goal.value == goal.value;
    while true
      invariant fresh(a) && ptr < a.Length && CString.Terminated(a[..])
      invariant goal == Prepend(items, Parse(oidOk, CString.Str(a[..], ptr)))
      decreases a.Length - ptr
    {
      ghost var here := CString.Str(a[..], ptr);
      var item, next := ReadItem(oidOk, a, ptr);
      if item.None? {
        return None;
      }
      ParseStep(oidOk, here, items);
      items, ptr := items + [item.value], next;
      if a[ptr] == '\0' {
        break;
      }
      assert CString.Str(a[..], ptr)[0] == a[ptr];
    }
    r := Some(items);
  }

  function Prepend(items: seq<Itav>, more: Option<seq<Itav>>): Option<seq<Itav>> {
    if more.None? then None else Some(items + more.value)
  }

  lemma ParseStep(oidOk: string -> bool, s: string, items: seq<Itav>)
    requires ParseItem(oidOk, s).Some?
    ensures var (item, rest) := ParseItem(oidOk, s).value;
            Prepend(items, Parse(oidOk, s)) ==
              if rest == "" then Some(items + [item]) else Prepend(items + [item], Parse(oidOk, rest))
  {
    hide ParseItem;
    var (item, rest) := ParseItem(oidOk, s).value;
    if rest != "" && Parse(oidOk, rest).Some? {
      assert items + ([item] + Parse(oidOk, rest).value) == (items + [item]) + Parse(oidOk, rest).value;
    }
  }

  // ----- what is accepted

  /**
   A value that is read is int or str in any case, a colon, and either a number or a text without
   comma; and it ends at a comma or at the end.
   */
  lemma ValueForm(s: string)
    ensures ParseValue(s).Some? ==>
              var (v, rest) := ParseValue(s).value;
              && |s| >= 4 && EqualFold(s[..4], if v.Int? then "int:" else "str:")
              && var n := if v.Int? then StrToL(s[4..]).1 else |v.text|;
                 && s[4 + n..] == (if |s| == 4 + n then "" else "," + rest)
                 && (v.Int? ==> n > 0 && v.n == StrToL(s[4..]).0)
                 && (v.Str? ==> s[4..4 + n] == v.text && ',' !in v.text)
  {
    hide StrToL, EqualFold;
    if ParseValue(s).Some? && ParseValue(s).value.0.Str? { CutParts(s[4..], ','); }
  }

  /** An item that is read is blanks, an accepted OID without colon, a colon and such a value. */
  lemma ItemForm(oidOk: string -> bool, s: string)
    ensures ParseItem(oidOk, s).Some? ==>
              var (item, rest) := ParseItem(oidOk, s).value;
              var t, n := s[Blanks(s)..], |item.oid|;
              && oidOk(item.oid) && ':' !in item.oid
              && n < |t| && t[..n] == item.oid && t[n] == ':'
              && ParseValue(t[n + 1..]) == Some((item.value, rest))
  {
    hide ParseValue, Blanks, IndexOf;
    if ParseItem(oidOk, s).Some? {
      var t := s[Blanks(s)..];
      var n := IndexOf(t, ':');
      assert Cut(t, ':') == (t[..n], Some(t[n + 1..]));
      assert |t[..n]| == n;
    }
  }

  /** Cutting at the first c leaves the parts around it. */
  lemma CutParts(s: string, c: char)
    ensures c !in Cut(s, c).0
    ensures s == Cut(s, c).0 + if Cut(s, c).1.None? then "" else [c] + Cut(s, c).1.value
  {
  }

  // ----- the documented syntax

  function RenderValue(v: Value): string {
    match v
    case Int(n) => "int:" + SignedDecimal(n)
    case Str(text) => "str:" + text
  }

  /** Items separated by commas, each preceded by blanks. */
  function Render(items: seq<Itav>, pad: string): string {
    if items == [] then ""
    else
      var more := if |items| == 1 then None else Some(Render(items[1..], pad));
      pad + (items[0].oid + [':'] + (RenderValue(items[0].value) + Tail(more)))
  }

  /** The comma before the next item, and what follows it. */
  function Tail(more: Option<string>): string {
    if more.None? then "" else "," + more.value
  }

  function After(more: Option<string>): string {
    if more.None? then "" else more.value
  }

  /** An item that the syntax can express. */
  predicate Expressible(oidOk: string -> bool, i: Itav) {
    && oidOk(i.oid) && ':' !in i.oid && (i.oid == "" || !IsSpace(i.oid[0]))
    && (i.value.Str? ==> ',' !in i.value.text)
  }

  /** The value as the parser stores it: numbers are brought into the range of long. */
  function Stored(v: Value): Value {
    match v
    case Int(n) => Int(Saturate(n))
    case Str(text) => v
  }

  function StoredItems(items: seq<Itav>): seq<Itav> {
    seq(|items|, i requires 0 <= i < |items| => items[i].(value := Stored(items[i].value)))
  }

  lemma {:induction false} BlanksOf(pad: string, rest: string)
    requires (forall c | c in pad :: IsSpace(c)) && (rest == "" || !IsSpace(rest[0]))
    ensures Blanks(pad + rest) == |pad| && (pad + rest)[|pad|..] == rest
  {
    if pad == "" {
      assert pad + rest == rest;
    } else {
      BlanksOf(pad[1..], rest);
      assert (pad + rest)[1..] == pad[1..] + rest;
    }
  }

  lemma IntRead(n: int, more: Option<string>)
    ensures ParseInt(SignedDecimal(n) + Tail(more)) == Some((Int(Saturate(n)), After(more)))
  {
    hide StrToL, SignedDecimal;
    var d, tail := SignedDecimal(n), Tail(more);
    SignedRead(n, tail);
    SignedNonEmpty(n);
    assert (d + tail)[|d|..] == tail;
    assert more.Some? ==> tail[1..] == more.value;
  }

  lemma TextRead(text: string, more: Option<string>)
    requires ',' !in text
    ensures ParseText(text + Tail(more)) == (Str(text), After(more))
  {
    if more.None? {
      assert text + Tail(more) == text;
      CutNone(text, ',');
    } else {
      assert text + Tail(more) == text + [','] + more.value;
      CutAt(text, ',', more.value);
    }
  }

  lemma KeywordRead(t: string)
    ensures HasCasePrefix("int:" + t, "int:") && ("int:" + t)[4..] == t
    ensures HasCasePrefix("str:" + t, "str:") && ("str:" + t)[4..] == t && !HasCasePrefix("str:" + t, "int:")
  {
    var s := "str:" + t;
    assert ("int:" + t)[..4] == "int:" && s[..4] == "str:";
    assert Lower(s[..4][0]) != Lower("int:"[0]);
  }

  /** A rendered value followed by the end or by a comma is read back. */
  lemma ValueRead(v: Value, more: Option<string>)
    requires v.Str? ==> ',' !in v.text
    ensures ParseValue(RenderValue(v) + Tail(more)) == Some((Stored(v), After(more)))
  {
    hide ParseInt, ParseText, HasCasePrefix, SignedDecimal, Tail, After;
    match v
    case Int(n) =>
      var t := SignedDecimal(n) + Tail(more);
      assert RenderValue(v) + Tail(more) == "int:" + t;
      KeywordRead(t);
      IntRead(n, more);
    case Str(text) =>
      var t := text + Tail(more);
      assert RenderValue(v) + Tail(more) == "str:" + t;
      KeywordRead(t);
      TextRead(text, more);
  }

  lemma SignedNonEmpty(n: int)
    ensures |SignedDecimal(n)| > 0
  {
  }

  /**
   For every non-empty list of expressible items, running the parser on its rendering gives
   the same items in the same order, with numbers that no long can hold brought into range.
   */
  lemma {:induction false} RenderRoundTrip(oidOk: string -> bool, items: seq<Itav>, pad: string)
    requires items != [] && (forall i | i in items :: Expressible(oidOk, i))
    requires forall c | c in pad :: IsSpace(c)
    ensures Render(items, pad) != ""
    ensures Parse(oidOk, Render(items, pad)) == Some(StoredItems(items))
    decreases |items|
  {
    hide Parse, ParseItem, Render, RenderValue, Expressible, Tail, After, Stored;
    var i, rest := items[0], items[1..];
    assert items == [i] + rest && i in items;
    var more := if |items| == 1 then None else Some(Render(rest, pad));
    RenderStep(items, pad);
    ItemRead(oidOk, i, more, pad);
    if more.Some? { RenderRoundTrip(oidOk, rest, pad); }
    var stored := i.(value := Stored(i.value));
    ParseUnfold(oidOk, Render(items, pad), stored, more);
    assert StoredItems(items) == [stored] + StoredItems(rest);
    assert |items| == 1 ==> StoredItems(items) == [stored];
  }

  /** So the list itself comes back exactly when every number in it fits a long. */
  lemma RoundTripIffInRange(oidOk: string -> bool, items: seq<Itav>, pad: string)
    requires items != [] && (forall i | i in items :: Expressible(oidOk, i))
    requires forall c | c in pad :: IsSpace(c)
    ensures Parse(oidOk, Render(items, pad)) == Some(items) <==>
              forall i | i in items :: i.value.Int? ==> LONG_MIN <= i.value.n <= LONG_MAX
  {
    hide Parse, Render, Expressible;
    RenderRoundTrip(oidOk, items, pad);
    var stored := StoredItems(items);
    if stored == items {
      forall i | i in items && i.value.Int? ensures LONG_MIN <= i.value.n <= LONG_MAX {
        var k :| 0 <= k < |items| && items[k] == i;
        assert stored[k].value == i.value;
      }
    } else {
      var k :| 0 <= k < |items| && stored[k] != items[k];
      assert items[k] in items && items[k].value.Int?;
    }
  }

  lemma RenderStep(items: seq<Itav>, pad: string)
    requires items != []
    ensures var more := if |items| == 1 then None else Some(Render(items[1..], pad));
            Render(items, pad) == pad + (items[0].oid + [':'] + (RenderValue(items[0].value) + Tail(more)))
    ensures |Render(items, pad)| > 0
  {
    hide RenderValue, Tail;
  }

  lemma ParseUnfold(oidOk: string -> bool, s: string, i: Itav, more: Option<string>)
    requires ParseItem(oidOk, s) == Some((i, After(more))) && more != Some("")
    ensures more.None? ==> Parse(oidOk, s) == Some([i])
    ensures more.Some? && Parse(oidOk, more.value).Some? ==>
              Parse(oidOk, s) == Some([i] + Parse(oidOk, more.value).value)
  {
    hide ParseItem;
  }

  lemma ItemRead(oidOk: string -> bool, i: Itav, more: Option<string>, pad: string)
    requires Expressible(oidOk, i) && forall c | c in pad :: IsSpace(c)
    ensures ParseItem(oidOk, pad + (i.oid + [':'] + (RenderValue(i.value) + Tail(more)))) ==
              Some((i.(value := Stored(i.value)), After(more)))
  {
    hide ParseValue, RenderValue, Tail, After, Stored;
    var value := RenderValue(i.value) + Tail(more);
    var item := i.oid + [':'] + value;
    assert item[0] == if i.oid == "" then ':' else i.oid[0];
    BlanksOf(pad, item);
    CutAt(i.oid, ':', value);
    ValueRead(i.value, more);
  }
}
