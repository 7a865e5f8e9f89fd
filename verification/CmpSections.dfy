/** The list of configuration sections of the CMP client, scanned from its end. */
module CmpSections {
  import opened Common
  import opened CNumbers

  const SECTION_NAME_MAX := 40

  predicate IsSep(c: char) {
    c == ',' || IsSpace(c)
  }

  predicate NoSep(s: string) {
    forall i | 0 <= i < |s| :: !IsSep(s[i])
  }

  predicate AllSep(s: string) {
    forall i | 0 <= i < |s| :: IsSep(s[i])
  }

  function Truncated(s: string): (t: string)
    ensures t <= s && |t| == if |s| > 40 then 40 else |s|
  {
    if |s| > SECTION_NAME_MAX then s[..SECTION_NAME_MAX] else s
  }

  // ----- the list, read forwards

  /** The length of the first item of a list that starts with one. */
  function WordLength(s: string): (n: nat)
    ensures n <= |s| && (forall i | 0 <= i < n :: !IsSep(s[i])) && (n < |s| ==> IsSep(s[n]))
  {
    if s == "" || IsSep(s[0]) then 0 else 1 + WordLength(s[1..])
  }

  /** The non-empty items of a list, in order. */
  function Items(s: string): seq<string>
    decreases |s|
  {
    if s == "" then []
    else if IsSep(s[0]) then Items(s[1..])
    else [s[..WordLength(s)]] + Items(s[WordLength(s)..])
  }

  function Reversed(items: seq<string>): seq<string> {
    if items == [] then [] else [Truncated(items[|items| - 1])] + Reversed(items[..|items| - 1])
  }

  // ----- the list, scanned backwards

  /** Where the item that ends at end begins. */
  function ItemStart(s: string, end: nat): (b: nat)
    requires end <= |s|
    ensures b <= end && (forall i | b <= i < end :: !IsSep(s[i])) && (b > 0 ==> IsSep(s[b - 1]))
  {
    if end == 0 || IsSep(s[end - 1]) then end else ItemStart(s, end - 1)
  }

  /** Where the separators that end at end begin. */
  function SepStart(s: string, end: nat): (b: nat)
    requires end <= |s|
    ensures b <= end && (forall i | b <= i < end :: IsSep(s[i])) && (b > 0 ==> !IsSep(s[b - 1]))
  {
    if end == 0 || !IsSep(s[end - 1]) then end else SepStart(s, end - 1)
  }

  function NextEnd(s: string, end: nat): (e: nat)
    requires 0 < end <= |s|
    ensures e < end
  {
    SepStart(s, ItemStart(s, end))
  }

  /** prev_item(): the item before end, and where the next call has to continue; -1 at the start. */
  method PrevItem(opt: string, end: nat) returns (next: int, item: string)
    requires end <= |opt|
    ensures end == 0 ==> next == -1
    ensures end > 0 ==> next == NextEnd(opt, end) && item == Truncated(opt[ItemStart(opt, end)..end])
  {
    if end == 0 {
      return -1, "";
    }
    var beg := end;
    while beg > 0
      invariant 0 <= beg <= end && ItemStart(opt, end) == ItemStart(opt, beg)
    {
      beg := beg - 1;
      if IsSep(opt[beg]) {
        beg := beg + 1;
        break;
      }
    }
    assert beg == ItemStart(opt, end);
    var len := end - beg;
    if len > SECTION_NAME_MAX {
      len := SECTION_NAME_MAX;
    }
    item := opt[beg..beg + len];
    ghost var b := beg;
    assert item == Truncated(opt[b..end]);
    while beg > 0
      invariant 0 <= beg <= b && SepStart(opt, b) == SepStart(opt, beg)
    {
      beg := beg - 1;
      if !IsSep(opt[beg]) {
        beg := beg + 1;
        break;
      }
    }
    next := beg;
  }

  /** The items that repeated calls deliver, starting at end. */
  function Visited(s: string, end: nat): seq<string>
    requires end <= |s|
  {
    if end == 0 then [] else [Truncated(s[ItemStart(s, end)..end])] + Visited(s, NextEnd(s, end))
  }

  /** conf_get_string(): the first visited section that defines the option. */
  method ConfGetString(conf: string -> Option<string>, groups: string) returns (res: Option<string>)
    ensures res == FirstDefined(conf, Visited(groups, |groups|))
  {
    var end: int := |groups|;
    while true
      invariant 0 <= end <= |groups|
      invariant FirstDefined(conf, Visited(groups, |groups|)) == FirstDefined(conf, Visited(groups, end))
      decreases end
    {
      var next, item := PrevItem(groups, end);
      if next == -1 {
        return None;
      }
      assert Visited(groups, end)[1..] == Visited(groups, next);
      end := next;
      res := conf(item);
      if res.Some? {
        return;
      }
    }
  }

  function FirstDefined(conf: string -> Option<string>, sections: seq<string>): Option<string> {
    if sections == [] then None
    else if conf(sections[0]).Some? then conf(sections[0])
    else FirstDefined(conf, sections[1..])
  }

  // ----- both directions agree

  lemma {:induction false} ItemsOfSep(pre: string, sep: string)
    requires AllSep(sep)
    ensures Items(pre + sep) == Items(pre)
    decreases |pre|
  {
    var s := pre + sep;
    if pre == "" {
      assert s == sep;
      ItemsOfOnlySep(sep);
    } else if IsSep(pre[0]) {
      assert s[1..] == pre[1..] + sep;
      ItemsOfSep(pre[1..], sep);
    } else {
      FirstWord(pre, sep);
      ItemsOfSep(pre[WordLength(pre)..], sep);
    }
  }

  lemma {:induction false} ItemsOfOnlySep(sep: string)
    requires AllSep(sep)
    ensures Items(sep) == []
  {
    if sep != "" { ItemsOfOnlySep(sep[1..]); }
  }

  /** The first word of a text does not change when a separator, or what follows one, is added. */
  lemma FirstWord(pre: string, rest: string)
    requires pre != "" && !IsSep(pre[0])
    requires WordLength(pre) < |pre| || rest == "" || IsSep(rest[0])
    ensures var n := WordLength(pre);
            && WordLength(pre + rest) == n && n > 0
            && (pre + rest)[..n] == pre[..n] && (pre + rest)[n..] == pre[n..] + rest
  {
    hide IsSep, WordLength;
    var s, n := pre + rest, WordLength(pre);
    assert forall i | 0 <= i < |pre| :: s[i] == pre[i];
    assert n == |pre| && rest != "" ==> s[n] == rest[0];
    assert n < |s| ==> IsSep(s[n]);
    assert WordLength(s) <= n;
    assert n <= WordLength(s);
  }

  lemma {:induction false} ItemsOfWord(pre: string, word: string)
    requires word != "" && NoSep(word) && (pre == "" || IsSep(pre[|pre| - 1]))
    ensures Items(pre + word) == Items(pre) + [word]
    decreases |pre|
  {
    var s := pre + word;
    if pre == "" {
      assert s == word && s[|s|..] == "";
      WholeWord(word);
      assert Items(word) == [word[..|word|]] + Items(word[|word|..]);
      assert word[..|word|] == word;
    } else if IsSep(pre[0]) {
      assert s[1..] == pre[1..] + word;
      ItemsOfWord(pre[1..], word);
    } else {
      LastIsSep(pre);
      FirstWord(pre, word);
      ItemsOfWord(pre[WordLength(pre)..], word);
    }
  }

  lemma WholeWord(word: string)
    requires NoSep(word)
    ensures WordLength(word) == |word|
  {
  }

  lemma LastIsSep(pre: string)
    requires pre != "" && IsSep(pre[|pre| - 1])
    ensures WordLength(pre) < |pre|
  {
  }

  lemma VisitedStep(s: string, end: nat)
    requires 0 < end <= |s|
    ensures Visited(s, end) == [Truncated(s[ItemStart(s, end)..end])] + Visited(s, NextEnd(s, end))
  {
  }

  lemma LastItem(s: string, e: nat, b: nat, end: nat)
    requires e <= b < end <= |s| && (forall i | e <= i < b :: IsSep(s[i])) && (forall i | b <= i < end :: !IsSep(s[i]))
    requires b == 0 || IsSep(s[b - 1])
    ensures Items(s[..end]) == Items(s[..e]) + [s[b..end]]
  {
    hide IsSep, Items;
    assert s[..b] == s[..e] + s[e..b];
    ItemsOfSep(s[..e], s[e..b]);
    assert s[..end] == s[..b] + s[b..end];
    ItemsOfWord(s[..b], s[b..end]);
  }

  lemma ReversedSnoc(items: seq<string>, item: string)
    ensures Reversed(items + [item]) == [Truncated(item)] + Reversed(items)
  {
    assert (items + [item])[..|items|] == items;
  }

  /** Scanning back from a place where an item may end yields the items before it, last one first. */
  lemma {:induction false} VisitedAre(s: string, end: nat)
    requires end <= |s| && (end > 0 ==> !IsSep(s[end - 1]))
    ensures Visited(s, end) == Reversed(Items(s[..end]))
    decreases end
  {
    if end > 0 {
      hide IsSep, Items, Visited, Reversed;
      var b := ItemStart(s, end);
      var e := SepStart(s, b);
      VisitedStep(s, end);
      VisitedAre(s, e);
      LastItem(s, e, b, end);
      ReversedSnoc(Items(s[..e]), s[b..end]);
    } else {
      assert s[..0] == "";
    }
  }

  predicate EndsInSep(s: string) {
    s != "" && IsSep(s[|s| - 1])
  }

  /**
   For every list: repeated calls visit its non-empty items from last to first, each cut to
   40 characters; before them comes one empty item exactly when the list ends in a separator.
   */
  lemma VisitsAllItems(s: string)
    ensures Visited(s, |s|) == (if EndsInSep(s) then [""] else []) + Reversed(Items(s))
  {
    hide IsSep, Items, SepStart, Reversed, Visited;
    if EndsInSep(s) {
      VisitedStep(s, |s|);
      var e := SepStart(s, |s|);
      assert ItemStart(s, |s|) == |s|;
      assert Truncated(s[|s|..|s|]) == "";
      VisitedAre(s, e);
      assert s == s[..e] + s[e..];
      ItemsOfSep(s[..e], s[e..]);
    } else {
      assert s[..|s|] == s;
      VisitedAre(s, |s|);
    }
  }

  /** Items joined by a text of commas and blanks. */
  function Joined(words: seq<string>, sep: string): string {
    if words == [] then "" else Joined(words[..|words| - 1], sep) + sep + words[|words| - 1]
  }

  /** Whatever commas and blanks stand between them, the words of a list are its items. */
  lemma {:induction false} JoinedItems(words: seq<string>, sep: string)
    requires sep != "" && forall c | c in sep :: c in ", \t\n\r" || c == 11 as char || c == 12 as char
    requires forall w | w in words :: w != "" && ',' !in w && ' ' !in w && forall c | c in w :: !('\t' <= c <= '\r')
    ensures Items(Joined(words, sep)) == words
  {
    if words != [] {
      hide Items;
      var front, w := words[..|words| - 1], words[|words| - 1];
      assert w in words && words == front + [w];
      assert forall v | v in front :: v in words;
      JoinedItems(front, sep);
      var pre := Joined(front, sep) + sep;
      assert forall i | 0 <= i < |sep| :: sep[i] in sep;
      assert forall i | 0 <= i < |w| :: w[i] in w;
      assert AllSep(sep) && NoSep(w);
      assert pre[|pre| - 1] == sep[|sep| - 1];
      ItemsOfSep(Joined(front, sep), sep);
      ItemsOfWord(pre, w);
    }
  }

  /** The right-most item that defines the option, or -1. */
  function LastDefined(conf: string -> Option<string>, items: seq<string>): (i: int)
    ensures -1 <= i < |items| && (i >= 0 ==> conf(Truncated(items[i])).Some?)
    ensures forall k | i < k < |items| :: conf(Truncated(items[k])).None?
  {
    var n := |items| - 1;
    if n < 0 || conf(Truncated(items[n])).Some? then n else LastDefined(conf, items[..n])
  }

  /** The option's value comes from the right-most item of the list that defines it. */
  lemma {:induction false} RightmostDefines(conf: string -> Option<string>, items: seq<string>)
    ensures FirstDefined(conf, Reversed(items)) ==
              var i := LastDefined(conf, items); if i == -1 then None else conf(Truncated(items[i]))
  {
    hide Truncated;
    if items != [] {
      RightmostDefines(conf, items[..|items| - 1]);
      assert Reversed(items)[1..] == Reversed(items[..|items| - 1]);
    }
  }

  /**
   What conf_get_string() returns: the value from the right-most item that defines the option,
   unless the list ends in a separator and a section with the empty name defines it.
   */
  lemma ConfIsRightmost(conf: string -> Option<string>, groups: string)
    ensures FirstDefined(conf, Visited(groups, |groups|)) ==
              var i := LastDefined(conf, Items(groups));
              if EndsInSep(groups) && conf("").Some? then conf("")
              else if i == -1 then None else conf(Truncated(Items(groups)[i]))
  {
    hide Visited, Items, Reversed, LastDefined, Truncated;
    VisitsAllItems(groups);
    var rest := Reversed(Items(groups));
    assert [] + rest == rest && ([""] + rest)[1..] == rest;
    RightmostDefines(conf, Items(groups));
  }
}
