/**
 * The branch rows of the review sheet (src/sheets/generateBranchRows.js, and the older copy in
 * src/sheets/reviewRemoteGoogleSheetsLocal.js): branches grouped by the author of their newest
 * own commit, groups in sorted order each followed by an empty spacer row, and per branch one
 * row of cells ending in a truncated list of commits.
 */
module BranchRows {
  import opened Wrappers
  import opened Text
  import opened Collections
  import opened Sheet
  import Branches
  import SheetProcessors

  /** A commit as the sheet generator receives it; `summary` is absent when commit messages are left out. */
  datatype SheetCommit = SheetCommit(sha: string, author: string, timeMs: int, summary: Option<string>)

  /** `branch.commits`: the (possibly shortened) ahead list and the full ahead and behind counts. */
  datatype BranchCommits = BranchCommits(ahead: seq<SheetCommit>, numAhead: int, numBehind: int)

  /** One branch to lay out. */
  datatype BranchData = BranchData(shortName: string, name: string, headSha: string, commits: BranchCommits)

  /**
   * The local-time renderings `moment(time).format('YYYY,M,D')` and `format('H,m,s')`; they depend
   * on the time zone and are taken as given.
   */
  datatype TimeFormat = TimeFormat(date: int -> string, time: int -> string)

  /** The `groupBy` key: the author of the first ahead commit, or 'none'. */
  function GroupKey(b: BranchData): string {
    if |b.commits.ahead| > 0 then b.commits.ahead[0].author else "none"
  }

  function Keys(bs: seq<BranchData>): (r: seq<string>)
    ensures |r| == |bs|
    ensures forall k :: 0 <= k < |bs| ==> r[k] == GroupKey(bs[k])
    decreases |bs|
  {
    if |bs| == 0 then [] else [GroupKey(bs[0])] + Keys(bs[1..])
  }

  /** `Object.keys(branchesByAuthor).sort()`: the distinct keys in ascending order. */
  function GroupKeys(bs: seq<BranchData>): seq<string> {
    SortStrings(Uniq(Keys(bs)))
  }

  /** Every branch's key is one of the groups' keys. */
  lemma GroupKeysCoverBranches(bs: seq<BranchData>)
    ensures forall k :: 0 <= k < |bs| ==> GroupKey(bs[k]) in GroupKeys(bs)
  {
    var u := Uniq(Keys(bs));
    SortStringsSorted(u);
    forall k | 0 <= k < |bs| ensures GroupKey(bs[k]) in GroupKeys(bs) {
      assert Keys(bs)[k] in u;
      assert GroupKey(bs[k]) in multiset(u);
    }
  }

  /** Every group key is the key of some branch. */
  lemma GroupKeysFromBranches(bs: seq<BranchData>)
    ensures forall i :: 0 <= i < |GroupKeys(bs)| ==> exists k :: 0 <= k < |bs| && GroupKey(bs[k]) == GroupKeys(bs)[i]
  {
    var u := Uniq(Keys(bs));
    SortStringsSorted(u);
    forall i | 0 <= i < |GroupKeys(bs)| ensures exists k :: 0 <= k < |bs| && GroupKey(bs[k]) == GroupKeys(bs)[i] {
      var key := GroupKeys(bs)[i];
      assert key in multiset(GroupKeys(bs));
      assert key in u;
      var j :| 0 <= j < |u| && u[j] == key;
      var k :| 0 <= k < |Keys(bs)| && Keys(bs)[k] == key;
    }
  }

  /** The groups' keys are sorted without repetition, and they are exactly the branches' keys. */
  lemma GroupKeysSortedAndComplete(bs: seq<BranchData>)
    ensures StrictlySorted(GroupKeys(bs))
    ensures forall k :: 0 <= k < |bs| ==> GroupKey(bs[k]) in GroupKeys(bs)
    ensures forall i :: 0 <= i < |GroupKeys(bs)| ==> exists k :: 0 <= k < |bs| && GroupKey(bs[k]) == GroupKeys(bs)[i]
  {
    SortStringsSorted(Uniq(Keys(bs)));
    GroupKeysCoverBranches(bs);
    GroupKeysFromBranches(bs);
  }

  /** `branchesByAuthor[author]`: the branches with that key, in input order. */
  function Group(bs: seq<BranchData>, author: string): seq<BranchData> {
    Filter(bs, (b: BranchData) => GroupKey(b) == author)
  }

  /** The branches in the order their rows appear: group after group. */
  function Grouped(bs: seq<BranchData>, keys: seq<string>): seq<BranchData>
    decreases |keys|
  {
    if |keys| == 0 then [] else Group(bs, keys[0]) + Grouped(bs, keys[1..])
  }

  lemma {:induction false} GroupedSelectsKeys(bs: seq<BranchData>, keys: seq<string>)
    requires Distinct(keys)
    ensures multiset(Grouped(bs, keys)) == multiset(Filter(bs, (b: BranchData) => GroupKey(b) in keys))
    decreases |keys|
  {
    if |keys| == 0 {
      FilterNone(bs, (b: BranchData) => GroupKey(b) in keys);
    } else {
      var rest := keys[1..];
      assert Distinct(rest) by {
        forall i, j | 0 <= i < j < |rest| ensures rest[i] != rest[j] {
          assert rest[i] == keys[i + 1] && rest[j] == keys[j + 1];
        }
      }
      GroupedSelectsKeys(bs, rest);
      assert keys[0] !in rest by {
        forall j | 0 <= j < |rest| ensures rest[j] != keys[0] {
          assert rest[j] == keys[j + 1];
        }
      }
      assert forall x :: x in keys <==> x == keys[0] || x in rest by {
        assert keys == [keys[0]] + rest;
      }
      FilterDisjointUnion(bs,
        (b: BranchData) => GroupKey(b) == keys[0],
        (b: BranchData) => GroupKey(b) in rest,
        (b: BranchData) => GroupKey(b) in keys);
    }
  }

  /** Every branch appears once among the groups: the row order is a permutation of the input. */
  lemma GroupedIsPermutation(bs: seq<BranchData>)
    ensures multiset(Grouped(bs, GroupKeys(bs))) == multiset(bs)
    ensures |Grouped(bs, GroupKeys(bs))| == |bs|
  {
    var keys := GroupKeys(bs);
    GroupKeysSortedAndComplete(bs);
    assert Distinct(keys) by {
      forall i, j | 0 <= i < j < |keys| ensures keys[i] != keys[j] {
        LexLessIrreflexive(keys[i]);
      }
    }
    GroupedSelectsKeys(bs, keys);
    FilterAll(bs, (b: BranchData) => GroupKey(b) in keys);
    assert |multiset(Grouped(bs, keys))| == |multiset(bs)|;
  }

  /** The string of a commit cell: `${commit.sha} ${commit.summary || ''}`. */
  function CommitText(c: SheetCommit): string {
    c.sha + " " + c.summary.GetOr("")
  }

  function CommitCells(commits: seq<SheetCommit>): (r: seq<Cell>)
    ensures |r| == |commits|
    ensures forall k :: 0 <= k < |r| ==> r[k] == StringCell(CommitText(commits[k]), CommitColumn)
    decreases |commits|
  {
    if |commits| == 0 then [] else [StringCell(CommitText(commits[0]), CommitColumn)] + CommitCells(commits[1..])
  }

  function Authors(commits: seq<SheetCommit>): (r: seq<string>)
    ensures |r| == |commits|
    ensures forall k :: 0 <= k < |r| ==> r[k] == commits[k].author
    decreases |commits|
  {
    if |commits| == 0 then [] else [commits[0].author] + Authors(commits[1..])
  }

  /** The date or time column: a formula when the rendering is non-empty, an empty string otherwise. */
  function WhenCell(text: string, formula: string, style: Style): Cell {
    if text != "" then Cell(Some(FormulaValue("=" + formula + "(" + text + ")")), style) else StringCell("", Unstyled)
  }

  /** The hidden `name:sha`, the author (on the group's first row only), the short name and the authors. */
  function NameCells(b: BranchData, index: nat, author: string): (r: seq<Cell>)
    ensures |r| == 4
    ensures r[0] == StringCell(b.name + ":" + b.headSha, HiddenColumn)
    ensures CellString(r[1]) == Some(if index == 0 then author else "")
    ensures CellString(r[2]) == Some(b.shortName)
    ensures r[3] == StringCell(Join(Uniq(Authors(b.commits.ahead)), ", "), ClippedText)
  {
    [StringCell(b.name + ":" + b.headSha, HiddenColumn),
     StringCell(if index == 0 then author else "", AuthorColumn),
     StringCell(b.shortName, ClippedText),
     StringCell(Join(Uniq(Authors(b.commits.ahead)), ", "), ClippedText)]
  }

  /** The date and time of the newest ahead commit, empty when nothing is ahead. */
  function WhenCells(b: BranchData, fmt: TimeFormat): (r: seq<Cell>)
    ensures |r| == 2
  {
    var ahead := b.commits.ahead;
    var date := if |ahead| > 0 then fmt.date(ahead[0].timeMs) else "";
    var time := if |ahead| > 0 then fmt.time(ahead[0].timeMs) else "";
    [WhenCell(date, "DATE", DateColumn), WhenCell(time, "TIME", TimeColumn)]
  }

  /** The empty action cell and the behind and ahead counts. */
  function CountCells(b: BranchData): (r: seq<Cell>)
    ensures |r| == 3
    ensures r[0].userEnteredValue.None?
    ensures r[1] == NumberCell(b.commits.numBehind, BehindColumn)
    ensures r[2] == NumberCell(b.commits.numAhead, AheadColumn)
  {
    [Cell(None, ActionChoice), NumberCell(b.commits.numBehind, BehindColumn), NumberCell(b.commits.numAhead, AheadColumn)]
  }

  /** The nine fixed cells of a branch row: hidden ref, author, name, authors, date, time, action, behind, ahead. */
  function LeadCells(b: BranchData, index: nat, author: string, fmt: TimeFormat): (r: seq<Cell>)
    ensures |r| == 9
    ensures r[0] == StringCell(b.name + ":" + b.headSha, HiddenColumn)
    ensures CellString(r[1]) == Some(if index == 0 then author else "")
    ensures CellString(r[2]) == Some(b.shortName)
    ensures r[3] == StringCell(Join(Uniq(Authors(b.commits.ahead)), ", "), ClippedText)
    ensures r[6].userEnteredValue.None?
    ensures r[7] == NumberCell(b.commits.numBehind, BehindColumn)
    ensures r[8] == NumberCell(b.commits.numAhead, AheadColumn)
  {
    NameCells(b, index, author) + WhenCells(b, fmt) + CountCells(b)
  }

  /**
   * The date and time cells of a branch row: `=DATE(..)` and `=TIME(..)` formulas rendered from the
   * newest ahead commit, or empty strings when nothing is ahead.
   */
  lemma LeadWhenCells(b: BranchData, index: nat, author: string, fmt: TimeFormat)
    ensures |b.commits.ahead| == 0 ==>
      LeadCells(b, index, author, fmt)[4..6] == [StringCell("", Unstyled), StringCell("", Unstyled)]
    ensures |b.commits.ahead| > 0 ==>
      LeadCells(b, index, author, fmt)[4] == WhenCell(fmt.date(b.commits.ahead[0].timeMs), "DATE", DateColumn) &&
      LeadCells(b, index, author, fmt)[5] == WhenCell(fmt.time(b.commits.ahead[0].timeMs), "TIME", TimeColumn)
  {
  }

  /** The commit cells after the fixed ones: at most `limit` commits, then an "(n more)" cell when some are cut. */
  function CommitTail(b: BranchData, limit: nat): (r: seq<Cell>)
    ensures |r| == (if |b.commits.ahead| < limit then |b.commits.ahead| else limit) +
      (if b.commits.numAhead > limit then 1 else 0)
    ensures forall k :: 0 <= k < |b.commits.ahead| && k < limit ==>
      r[k] == StringCell(CommitText(b.commits.ahead[k]), CommitColumn)
    ensures b.commits.numAhead > limit ==>
      CellString(r[|r| - 1]) == Some("(" + IntToString(b.commits.numAhead - limit) + " more)")
  {
    var ahead := b.commits.ahead;
    var shown := if |ahead| < limit then ahead else ahead[..limit];
    CommitCells(shown) +
    (if b.commits.numAhead > limit
     then [StringCell("(" + IntToString(b.commits.numAhead - limit) + " more)", Unstyled)]
     else [])
  }

  /**
   * The row of one branch, the `index`-th of the group of `author`, listing at most `limit`
   * (`NUM_COMMITS_IN_SHEET`) commits; `BranchRowCells` states what each cell holds.
   */
  function BranchRow(b: BranchData, index: nat, author: string, limit: nat, fmt: TimeFormat): (r: seq<Cell>)
    ensures |r| == 9 + (if |b.commits.ahead| < limit then |b.commits.ahead| else limit) +
      (if b.commits.numAhead > limit then 1 else 0)
  {
    LeadCells(b, index, author, fmt) + CommitTail(b, limit)
  }

  /**
   * A branch row holds the hidden `name:sha`, the author on the group's first row only, the short
   * name, the distinct ahead authors, an empty action cell, the counts, the shown commits and the
   * "(n more)" cell.
   */
  lemma BranchRowCells(b: BranchData, index: nat, author: string, limit: nat, fmt: TimeFormat)
    ensures var r := BranchRow(b, index, author, limit, fmt);
      |r| >= 9 &&
      r[0] == StringCell(b.name + ":" + b.headSha, HiddenColumn) &&
      CellString(r[1]) == Some(if index == 0 then author else "") &&
      CellString(r[2]) == Some(b.shortName) &&
      r[3] == StringCell(Join(Uniq(Authors(b.commits.ahead)), ", "), ClippedText) &&
      r[6].userEnteredValue.None? &&
      r[7] == NumberCell(b.commits.numBehind, BehindColumn) &&
      r[8] == NumberCell(b.commits.numAhead, AheadColumn)
    ensures var r := BranchRow(b, index, author, limit, fmt);
      forall k :: 0 <= k < |b.commits.ahead| && k < limit ==>
        9 + k < |r| && r[9 + k] == StringCell(CommitText(b.commits.ahead[k]), CommitColumn)
    ensures var r := BranchRow(b, index, author, limit, fmt);
      b.commits.numAhead > limit ==>
        CellString(r[|r| - 1]) == Some("(" + IntToString(b.commits.numAhead - limit) + " more)")
  {
    var lead := LeadCells(b, index, author, fmt);
    var tail := CommitTail(b, limit);
    var r := BranchRow(b, index, author, limit, fmt);
    assert r == lead + tail;
    assert r[..9] == lead;
    assert r[9..] == tail;
  }

  /**
   * The rows of a group, `authorBranches.map((branch, index) => ..)`: the `k`-th is built from the
   * group's `k`-th branch at position `index + k`, so only a group's first row carries the author.
   */
  function GroupRows(group: seq<BranchData>, index: nat, author: string, limit: nat, fmt: TimeFormat): (r: seq<Row>)
    ensures |r| == |group|
    ensures forall k :: 0 <= k < |group| ==> r[k] == Row(Some(BranchRow(group[k], index + k, author, limit, fmt)))
  {
    MapIndexed(group, index, (b: BranchData, i: nat) => Row(Some(BranchRow(b, i, author, limit, fmt))))
  }

  /** The `{ values: [] }` row after each group. */
  const Spacer: Row := Row(Some([]))

  /** The rows of the group of `key`, followed by a spacer. */
  function GroupBlock(bs: seq<BranchData>, key: string, limit: nat, fmt: TimeFormat): seq<Row> {
    GroupRows(Group(bs, key), 0, key, limit, fmt) + [Spacer]
  }

  /** The groups of `keys` in turn, each followed by a spacer. */
  function Blocks(bs: seq<BranchData>, keys: seq<string>, limit: nat, fmt: TimeFormat): seq<Row>
    decreases |keys|
  {
    if |keys| == 0 then []
    else GroupBlock(bs, keys[0], limit, fmt) + Blocks(bs, keys[1..], limit, fmt)
  }

  /** `generateBranchRows(branches)`. */
  function GenerateBranchRows(bs: seq<BranchData>, limit: nat, fmt: TimeFormat): seq<Row> {
    Blocks(bs, GroupKeys(bs), limit, fmt)
  }

  /** Where the block of `keys[i]` starts: after the rows of the groups before it. */
  function BlockStart(bs: seq<BranchData>, keys: seq<string>, i: nat, limit: nat, fmt: TimeFormat): nat
    requires i <= |keys|
  {
    |Blocks(bs, keys[..i], limit, fmt)|
  }

  /** `Blocks` maps each key to its group's block and flattens the blocks, as `flatten(keys.map(..))` does. */
  lemma {:induction false} BlocksConcatMap(bs: seq<BranchData>, keys: seq<string>, limit: nat, fmt: TimeFormat)
    ensures Blocks(bs, keys, limit, fmt) == ConcatMap(keys, key => GroupBlock(bs, key, limit, fmt))
    decreases |keys|
  {
    if |keys| > 0 {
      BlocksConcatMap(bs, keys[1..], limit, fmt);
    }
  }

  /** The `j`-th row of the block of `keys[i]` sits in `Blocks` right after the blocks of the keys before it. */
  lemma BlockRowAt(bs: seq<BranchData>, keys: seq<string>, limit: nat, fmt: TimeFormat, i: nat, j: nat)
    requires i < |keys| && j < |GroupBlock(bs, keys[i], limit, fmt)|
    ensures BlockStart(bs, keys, i, limit, fmt) + j < |Blocks(bs, keys, limit, fmt)|
    ensures Blocks(bs, keys, limit, fmt)[BlockStart(bs, keys, i, limit, fmt) + j] == GroupBlock(bs, keys[i], limit, fmt)[j]
  {
    var f := key => GroupBlock(bs, key, limit, fmt);
    BlocksConcatMap(bs, keys, limit, fmt);
    BlocksConcatMap(bs, keys[..i], limit, fmt);
    ConcatMapIndex(keys, f, i, j);
    assert f(keys[i]) == GroupBlock(bs, keys[i], limit, fmt);
    assert BlockStart(bs, keys, i, limit, fmt) == |ConcatMap(keys[..i], f)|;
  }

  /** The `k`-th row of the block of `keys[i]` is the row of the `k`-th branch of its group, at index `k`. */
  lemma BlocksRow(bs: seq<BranchData>, keys: seq<string>, limit: nat, fmt: TimeFormat, i: nat, k: nat)
    requires i < |keys| && k < |Group(bs, keys[i])|
    ensures BlockStart(bs, keys, i, limit, fmt) + k < |Blocks(bs, keys, limit, fmt)|
    ensures Blocks(bs, keys, limit, fmt)[BlockStart(bs, keys, i, limit, fmt) + k] ==
      Row(Some(BranchRow(Group(bs, keys[i])[k], k, keys[i], limit, fmt)))
  {
    var group := Group(bs, keys[i]);
    var rows := GroupRows(group, 0, keys[i], limit, fmt);
    var block := GroupBlock(bs, keys[i], limit, fmt);
    assert block == rows + [Spacer];
    BlockRowAt(bs, keys, limit, fmt, i, k);
    assert block[k] == rows[k];
    assert rows[k] == Row(Some(BranchRow(group[k], 0 + k, keys[i], limit, fmt)));
  }

  /**
   * In the generated sheet, the `k`-th row of the `i`-th group is its `k`-th branch's row, so the
   * author shows on the group's first row and is blank on the others.
   */
  lemma GeneratedGroupRow(bs: seq<BranchData>, limit: nat, fmt: TimeFormat, i: nat, k: nat)
    requires i < |GroupKeys(bs)| && k < |Group(bs, GroupKeys(bs)[i])|
    ensures BlockStart(bs, GroupKeys(bs), i, limit, fmt) + k < |GenerateBranchRows(bs, limit, fmt)|
    ensures GenerateBranchRows(bs, limit, fmt)[BlockStart(bs, GroupKeys(bs), i, limit, fmt) + k] ==
      Row(Some(BranchRow(Group(bs, GroupKeys(bs)[i])[k], k, GroupKeys(bs)[i], limit, fmt)))
    ensures var row := GenerateBranchRows(bs, limit, fmt)[BlockStart(bs, GroupKeys(bs), i, limit, fmt) + k];
      row.values.Some? && |row.values.value| >= 9 &&
      CellString(row.values.value[1]) == Some(if k == 0 then GroupKeys(bs)[i] else "")
  {
    BlocksRow(bs, GroupKeys(bs), limit, fmt, i, k);
    BranchRowCells(Group(bs, GroupKeys(bs)[i])[k], k, GroupKeys(bs)[i], limit, fmt);
  }

  lemma {:induction false} BlocksLength(bs: seq<BranchData>, keys: seq<string>, limit: nat, fmt: TimeFormat)
    ensures |Blocks(bs, keys, limit, fmt)| == |Grouped(bs, keys)| + |keys|
    decreases |keys|
  {
    if |keys| > 0 {
      BlocksLength(bs, keys[1..], limit, fmt);
    }
  }

  /** One row per branch and one spacer per group. */
  lemma RowCount(bs: seq<BranchData>, limit: nat, fmt: TimeFormat)
    ensures |GenerateBranchRows(bs, limit, fmt)| == |bs| + |GroupKeys(bs)|
  {
    BlocksLength(bs, GroupKeys(bs), limit, fmt);
    GroupedIsPermutation(bs);
  }

  /** What reading the sheet back reports for a branch row the user has not filled in. */
  function UnfilledEntries(bs: seq<BranchData>): (r: seq<SheetProcessors.SheetBranch>)
    ensures |r| == |bs|
    ensures forall k :: 0 <= k < |bs| ==> r[k] == SheetProcessors.SheetBranch(StringValue(bs[k].name + ":" + bs[k].headSha), None)
    decreases |bs|
  {
    if |bs| == 0 then []
    else [SheetProcessors.SheetBranch(StringValue(bs[0].name + ":" + bs[0].headSha), None)] + UnfilledEntries(bs[1..])
  }

  predicate NamesStartWith(bs: seq<BranchData>, prefix: string) {
    forall k :: 0 <= k < |bs| ==> StartsWith(bs[k].name, prefix)
  }

  lemma PrefixOfHidden(name: string, rest: string, prefix: string)
    requires StartsWith(name, prefix)
    ensures StartsWith(name + rest, prefix)
  {
    assert (name + rest)[..|prefix|] == name[..|prefix|];
  }

  /** A generated branch row reads back as its hidden `<name>:<sha>` value with no action chosen. */
  lemma BranchRowReadBack(b: BranchData, index: nat, author: string, limit: nat, fmt: TimeFormat, prefix: string)
    requires StartsWith(b.name, prefix) && prefix != ""
    ensures SheetProcessors.BranchEntries([Row(Some(BranchRow(b, index, author, limit, fmt)))], prefix) ==
      [SheetProcessors.SheetBranch(StringValue(b.name + ":" + b.headSha), None)]
  {
    var cols := BranchRow(b, index, author, limit, fmt);
    BranchRowCells(b, index, author, limit, fmt);
    PrefixOfHidden(b.name, ":" + b.headSha, prefix);
    assert b.name + ":" + b.headSha == b.name + (":" + b.headSha);
    assert SheetProcessors.IsBranchRow(cols, prefix);
    SheetProcessors.BranchEntriesOfRow(Row(Some(cols)), prefix);
  }

  lemma {:induction false} GroupRowsReadBack(group: seq<BranchData>, index: nat, author: string, limit: nat, fmt: TimeFormat, prefix: string)
    requires NamesStartWith(group, prefix) && prefix != ""
    ensures SheetProcessors.BranchEntries(GroupRows(group, index, author, limit, fmt), prefix) == UnfilledEntries(group)
    decreases |group|
  {
    if |group| > 0 {
      var first := [Row(Some(BranchRow(group[0], index, author, limit, fmt)))];
      var rest := GroupRows(group[1..], index + 1, author, limit, fmt);
      BranchRowReadBack(group[0], index, author, limit, fmt, prefix);
      assert NamesStartWith(group[1..], prefix) by {
        forall k | 0 <= k < |group[1..]| ensures StartsWith(group[1..][k].name, prefix) {
          assert group[1..][k] == group[k + 1];
        }
      }
      GroupRowsReadBack(group[1..], index + 1, author, limit, fmt, prefix);
      SheetProcessors.BranchEntriesConcat(first, rest, prefix);
      assert GroupRows(group, index, author, limit, fmt) == first + rest;
      assert UnfilledEntries(group) == [UnfilledEntries(group)[0]] + UnfilledEntries(group[1..]);
    }
  }

  lemma GroupNamesStartWith(bs: seq<BranchData>, author: string, prefix: string)
    requires NamesStartWith(bs, prefix)
    ensures NamesStartWith(Group(bs, author), prefix)
  {
    var g := Group(bs, author);
    forall k | 0 <= k < |g| ensures StartsWith(g[k].name, prefix) {
      assert g[k] in bs;
    }
  }

  lemma {:induction false} BlocksReadBack(bs: seq<BranchData>, keys: seq<string>, limit: nat, fmt: TimeFormat, prefix: string)
    requires NamesStartWith(bs, prefix) && prefix != ""
    ensures SheetProcessors.BranchEntries(Blocks(bs, keys, limit, fmt), prefix) == UnfilledEntries(Grouped(bs, keys))
    decreases |keys|
  {
    if |keys| > 0 {
      var g := Group(bs, keys[0]);
      GroupNamesStartWith(bs, keys[0], prefix);
      var rows := GroupRows(g, 0, keys[0], limit, fmt);
      var rest := Blocks(bs, keys[1..], limit, fmt);
      assert Blocks(bs, keys, limit, fmt) == (rows + [Spacer]) + rest;
      assert Grouped(bs, keys) == g + Grouped(bs, keys[1..]);
      var E := (rs: seq<Row>) => SheetProcessors.BranchEntries(rs, prefix);
      assert E([Spacer]) == [] by {
        SheetProcessors.BranchEntriesOfRow(Spacer, prefix);
      }
      assert E(rows) == UnfilledEntries(g) by {
        GroupRowsReadBack(g, 0, keys[0], limit, fmt, prefix);
      }
      assert E(rest) == UnfilledEntries(Grouped(bs, keys[1..])) by {
        BlocksReadBack(bs, keys[1..], limit, fmt, prefix);
      }
      assert E(rows + [Spacer]) == E(rows) by {
        SheetProcessors.BranchEntriesConcat(rows, [Spacer], prefix);
      }
      assert E((rows + [Spacer]) + rest) == E(rows + [Spacer]) + E(rest) by {
        SheetProcessors.BranchEntriesConcat(rows + [Spacer], rest, prefix);
      }
      UnfilledEntriesConcat(g, Grouped(bs, keys[1..]));
    }
  }

  lemma {:induction false} UnfilledEntriesConcat(a: seq<BranchData>, b: seq<BranchData>)
    ensures UnfilledEntries(a + b) == UnfilledEntries(a) + UnfilledEntries(b)
  {
  }

  /**
   * Reading a freshly generated sheet back with the `0.1.0` processor's row filter reports every
   * branch once, in row order, with its `<name>:<sha>` value and no action chosen yet.
   */
  lemma GeneratedRowsReadBack(bs: seq<BranchData>, limit: nat, fmt: TimeFormat, prefix: string)
    requires NamesStartWith(bs, prefix) && prefix != ""
    ensures SheetProcessors.BranchEntries(GenerateBranchRows(bs, limit, fmt), prefix) == UnfilledEntries(Grouped(bs, GroupKeys(bs)))
    ensures |SheetProcessors.BranchEntries(GenerateBranchRows(bs, limit, fmt), prefix)| == |bs|
  {
    BlocksReadBack(bs, GroupKeys(bs), limit, fmt, prefix);
    GroupedIsPermutation(bs);
  }

  /** A branch of the older generator: the remote branch record and its ahead/behind comparison. */
  datatype LegacyBranch = LegacyBranch(shortName: string, name: string, headSha: string)

  /** `commit.sha().substring(0, 6)`. */
  function ShortSha(sha: string): (r: string)
    ensures |r| == if |sha| < 6 then |sha| else 6
    ensures StartsWith(sha, r)
  {
    if |sha| < 6 then sha else sha[..6]
  }

  /** What the older generator reads from a git commit: a 6-character sha, the author's name, the time and the summary. */
  function LegacyCommit(c: Branches.Commit): SheetCommit {
    SheetCommit(ShortSha(c.sha), c.author, c.timeMs, Some(c.summary))
  }

  function LegacyCommits(cs: seq<Branches.Commit>): (r: seq<SheetCommit>)
    ensures |r| == |cs|
    ensures forall k :: 0 <= k < |r| ==> r[k] == LegacyCommit(cs[k])
    decreases |cs|
  {
    if |cs| == 0 then [] else [LegacyCommit(cs[0])] + LegacyCommits(cs[1..])
  }

  /** `branches.map((branch, index) => ({ ...branch, commits: branchCommits[index] }))` in the older generator's terms. */
  function LegacyZip(branches: seq<LegacyBranch>, branchCommits: seq<Branches.AheadBehind>): (r: seq<BranchData>)
    requires |branchCommits| == |branches|
    ensures |r| == |branches|
    ensures forall k :: 0 <= k < |r| ==>
      (r[k].name == branches[k].name && r[k].headSha == branches[k].headSha &&
       r[k].commits.numAhead == |branchCommits[k].ahead| && r[k].commits.numBehind == |branchCommits[k].behind|)
    decreases |branches|
  {
    if |branches| == 0 then []
    else
      var ab := branchCommits[0];
      [BranchData(branches[0].shortName, branches[0].name, branches[0].headSha,
        BranchCommits(LegacyCommits(ab.ahead), |ab.ahead|, |ab.behind|))] +
      LegacyZip(branches[1..], branchCommits[1..])
  }

  /**
   * The older `generateBranchRows(branches, branchCommits)`: the same layout, fed with the full
   * ahead lists, shas cut to 6 characters, summaries always present and the counts taken from
   * the lists' lengths.
   */
  function LegacyGenerateBranchRows(branches: seq<LegacyBranch>, branchCommits: seq<Branches.AheadBehind>, limit: nat, fmt: TimeFormat): seq<Row>
    requires |branchCommits| == |branches|
  {
    GenerateBranchRows(LegacyZip(branches, branchCommits), limit, fmt)
  }

  /** The older generator also emits one row per branch and one spacer per author group. */
  lemma LegacyRowCount(branches: seq<LegacyBranch>, branchCommits: seq<Branches.AheadBehind>, limit: nat, fmt: TimeFormat)
    requires |branchCommits| == |branches|
    ensures |LegacyGenerateBranchRows(branches, branchCommits, limit, fmt)| ==
      |branches| + |GroupKeys(LegacyZip(branches, branchCommits))|
  {
    RowCount(LegacyZip(branches, branchCommits), limit, fmt);
  }
}
