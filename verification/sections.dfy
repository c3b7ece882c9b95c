/**
 * The optional sections of an actionbar payload that show the first few
 * items of a list and count the rest: tags, families and block states;
 * and the tools a block is breakable by.
 */
module Sections {
  import opened Text
  import opened JsValue
  import opened Formatters
  import opened Layout

  const TagsColor := "\U{00A7}8"
  const Separator := "\n----------"
  const MoreRowsLabel := "more rows..."
  const MoreTagsLabel := "more tags..."
  const MoreFamiliesLabel := "more families..."

  /** ` & N label`, the count of left-out items. */
  function MoreSuffix(hidden: nat, what: string): string
  {
    " & " + NatToString(hidden) + " " + what
  }

  /**
   * `appendBlockTags` / `appendEntityTags` / `appendEntityFamilies`: the
   * text parts pushed for a list: nothing when the section is off, the
   * list is empty or the cap shows nothing; else the heading with the
   * first `cap` items, then the count of the others when there are any.
   */
  function ListSection(show: bool, items: seq<string>, cap: real, heading: string, moreLabel: string): (r: seq<string>)
    ensures r == [] <==> !show || |items| == 0 || CapCount(cap) == 0
    ensures r != [] ==> var n := if CapCount(cap) < |items| then CapCount(cap) else |items|;
      r[0] == "\n" + TagsColor + heading + ": " + Join(items[..n], ", ") + "\U{00A7}r"
      && (|items| > CapCount(cap) ==> r == [r[0], MoreSuffix(|items| - CapCount(cap), moreLabel)])
      && (|items| <= CapCount(cap) ==> r == [r[0]])
  {
    if !show || |items| == 0 then []
    else
      var shown := Truncate(items, cap);
      if |shown.visible| == 0 then []
      else
        assert shown.visible == items[..|shown.visible|];
        [ "\n" + TagsColor + heading + ": " + Join(shown.visible, ", ") + "\U{00A7}r" ]
          + (if shown.hidden > 0 then [MoreSuffix(shown.hidden, moreLabel)] else [])
  }

  function AppendBlockTags(showBlockTags: bool, blockTags: seq<string>, maxVisibleBlockTags: real): seq<string>
  {
    ListSection(showBlockTags, blockTags, maxVisibleBlockTags, "Tags", MoreTagsLabel)
  }

  function AppendEntityTags(showEntityTags: bool, entityTags: seq<string>, maxVisibleEntityTags: real): seq<string>
  {
    ListSection(showEntityTags, entityTags, maxVisibleEntityTags, "Tags", MoreTagsLabel)
  }

  function AppendEntityFamilies(showEntityFamilies: bool, families: seq<string>, maxVisibleEntityFamilies: real): seq<string>
  {
    ListSection(showEntityFamilies, families, maxVisibleEntityFamilies, "Families", MoreFamiliesLabel)
  }

  /**
   * Items past the cap affect only the count: a longer list with the same
   * first items shows the same heading line, and its count grows by the
   * number of items added.
   */
  lemma ListSectionOnlyCountsTail(items: seq<string>, more: seq<string>, cap: real, heading: string, moreLabel: string)
    requires |items| >= CapCount(cap) > 0
    ensures var a := ListSection(true, items, cap, heading, moreLabel);
      var b := ListSection(true, items + more, cap, heading, moreLabel);
      a[0] == b[0] && (|more| > 0 ==> b[1] == MoreSuffix(|items| + |more| - CapCount(cap), moreLabel))
  {
    var n := CapCount(cap);
    assert (items + more)[..n] == items[..n];
  }

  // ---------------------------------------------------------------------------
  // Block states
  // ---------------------------------------------------------------------------

  /** One state row: the title-cased state name and its value. */
  function StateRow(entry: (string, Js)): string
  {
    "\n" + FormatStateName(entry.0) + ": " + ToMessageText(entry.1)
  }

  function StateRowsOf(entries: seq<(string, Js)>): (r: seq<string>)
    ensures |r| == |entries| && forall i :: 0 <= i < |entries| ==> r[i] == StateRow(entries[i])
  {
    if entries == [] then [] else [StateRow(entries[0])] + StateRowsOf(entries[1..])
  }

  /**
   * The state rows of `buildBlockActionbarPayload`: with states shown and
   * present, the separator always comes first, even when the cap shows no
   * row; then the first `cap` rows and the count of the others.
   */
  function StateRows(showBlockStates: bool, entries: seq<(string, Js)>, maxVisibleStates: real): (r: seq<string>)
    ensures r == [] <==> !showBlockStates || |entries| == 0
    ensures r != [] ==> r[0] == Separator
    ensures r != [] ==> var n := if CapCount(maxVisibleStates) < |entries| then CapCount(maxVisibleStates) else |entries|;
      |r| == 1 + n + (if |entries| > n then 1 else 0)
      && (forall i :: 0 <= i < n ==> r[1 + i] == StateRow(entries[i]))
      && (|entries| > n ==> r[|r| - 1] == MoreSuffix(|entries| - n, MoreRowsLabel))
  {
    if !showBlockStates || |entries| == 0 then []
    else
      var shown := Truncate(entries, maxVisibleStates);
      var rows := StateRowsOf(shown.visible);
      assert forall i :: 0 <= i < |shown.visible| ==> shown.visible[i] == entries[i];
      [Separator] + rows + (if shown.hidden > 0 then [MoreSuffix(shown.hidden, MoreRowsLabel)] else [])
  }

  /** Under a zero cap the states section is the separator and the count of all rows. */
  lemma StateRowsZeroCap(entries: seq<(string, Js)>, maxVisibleStates: real)
    requires |entries| > 0 && maxVisibleStates < 1.0
    ensures StateRows(true, entries, maxVisibleStates) == [Separator, MoreSuffix(|entries|, MoreRowsLabel)]
  {
  }

  // ---------------------------------------------------------------------------
  // Tools
  // ---------------------------------------------------------------------------

  datatype ToolDescriptor = ToolDescriptor(tag: string, glyph: char, name: string)

  /** The block-destruction tags and the tool each stands for, in display order. */
  const BlockToolTagGlyphs: seq<ToolDescriptor> := [
    ToolDescriptor("minecraft:is_pickaxe_item_destructible", '\U{F5FA}', "Pickaxe"),
    ToolDescriptor("minecraft:is_axe_item_destructible", '\U{F5FB}', "Axe"),
    ToolDescriptor("minecraft:is_shovel_item_destructible", '\U{F5FC}', "Shovel"),
    ToolDescriptor("minecraft:is_hoe_item_destructible", '\U{F5FD}', "Hoe"),
    ToolDescriptor("minecraft:is_shears_item_destructible", '\U{F5FE}', "Shears"),
    ToolDescriptor("minecraft:is_sword_item_destructible", '\U{F5F9}', "Sword")
  ]

  /**
   * `hasBlockTag`: listed among the block's tags, else what the block's
   * own tag query answers (a failing query answers false).
   */
  predicate HasBlockTag(blockTags: seq<string>, hostHasTag: string -> bool, tag: string)
  {
    tag in blockTags || hostHasTag(tag)
  }

  /** The descriptors of a table whose tag the block has, in table order. */
  function MatchingTools(table: seq<ToolDescriptor>, blockTags: seq<string>, hostHasTag: string -> bool): (r: seq<ToolDescriptor>)
    ensures |r| <= |table|
    ensures forall d :: d in r <==> d in table && HasBlockTag(blockTags, hostHasTag, d.tag)
  {
    if table == [] then []
    else
      var rest := MatchingTools(table[1..], blockTags, hostHasTag);
      if HasBlockTag(blockTags, hostHasTag, table[0].tag) then [table[0]] + rest else rest
  }

  /** `getBlockToolDescriptors`: every tool whose destruction tag the block has. */
  function GetBlockToolDescriptors(blockTags: seq<string>, hostHasTag: string -> bool): (r: seq<ToolDescriptor>)
    ensures forall d :: d in r <==> d in BlockToolTagGlyphs && HasBlockTag(blockTags, hostHasTag, d.tag)
  {
    MatchingTools(BlockToolTagGlyphs, blockTags, hostHasTag)
  }

  predicate NoRepeats(s: seq<ToolDescriptor>)
  {
    forall i, j :: 0 <= i < j < |s| ==> s[i] != s[j]
  }

  /** Filtering a table without repeats gives a list without repeats. */
  lemma {:induction false} MatchingToolsDistinct(table: seq<ToolDescriptor>, blockTags: seq<string>, hostHasTag: string -> bool)
    requires NoRepeats(table)
    ensures NoRepeats(MatchingTools(table, blockTags, hostHasTag))
  {
    if table != [] {
      var tail := table[1..];
      assert NoRepeats(tail) by {
        forall i, j | 0 <= i < j < |tail| ensures tail[i] != tail[j] {
          assert tail[i] == table[i + 1] && tail[j] == table[j + 1];
        }
      }
      MatchingToolsDistinct(tail, blockTags, hostHasTag);
      var rest := MatchingTools(tail, blockTags, hostHasTag);
      assert table[0] !in tail by {
        forall k | 0 <= k < |tail| ensures tail[k] != table[0] {
          assert tail[k] == table[k + 1];
        }
      }
      assert table[0] !in rest;
      if HasBlockTag(blockTags, hostHasTag, table[0].tag) {
        var r := [table[0]] + rest;
        assert r == MatchingTools(table, blockTags, hostHasTag);
        ConsNoRepeats(table[0], rest);
      } else {
        assert rest == MatchingTools(table, blockTags, hostHasTag);
      }
    }
  }

  lemma ConsNoRepeats(d: ToolDescriptor, rest: seq<ToolDescriptor>)
    requires NoRepeats(rest) && d !in rest
    ensures NoRepeats([d] + rest)
  {
    var r := [d] + rest;
    forall i, j | 0 <= i < j < |r| ensures r[i] != r[j] {
      assert r[j] == rest[j - 1];
      if i > 0 {
        assert r[i] == rest[i - 1];
      }
    }
  }

  /** When the block has every tag of a table, the whole table is listed, in its order. */
  lemma {:induction false} MatchingAllTools(table: seq<ToolDescriptor>, blockTags: seq<string>, hostHasTag: string -> bool)
    requires forall i :: 0 <= i < |table| ==> HasBlockTag(blockTags, hostHasTag, table[i].tag)
    ensures MatchingTools(table, blockTags, hostHasTag) == table
  {
    if table != [] {
      MatchingAllTools(table[1..], blockTags, hostHasTag);
    }
  }

  /** A block that has every destruction tag lists all six tools, pickaxe first. */
  lemma AllToolsInOrder(blockTags: seq<string>, hostHasTag: string -> bool)
    requires forall i :: 0 <= i < |BlockToolTagGlyphs| ==> HasBlockTag(blockTags, hostHasTag, BlockToolTagGlyphs[i].tag)
    ensures GetBlockToolDescriptors(blockTags, hostHasTag) == BlockToolTagGlyphs
  {
    MatchingAllTools(BlockToolTagGlyphs, blockTags, hostHasTag);
  }
}
