/**
 * Group headers in the cheatcode list (contracts/lib/forge-std/scripts/vm.py): for the first
 * cheatcode of each group a header entry is inserted into the very list being iterated over,
 * so the loop meets the same cheatcode again at the next index. Also the ordering the list is
 * sorted by before.
 */
module GroupHeaders {
  datatype Function = Function(
    id: string, description: string, declaration: string, visibility: string, mutability: string,
    signature: string, selector: string)

  datatype Cheatcode = Cheatcode(func: Function, group: string, status: string, safety: string)

  // ---------- The sort order ----------

  /** Python's `<` on strings. */
  predicate Before(a: string, b: string) {
    b != [] && (a == [] || a[0] < b[0] || (a[0] == b[0] && Before(a[1..], b[1..])))
  }

  function CompareText(a: string, b: string): int {
    if a == b then 0 else if Before(a, b) then -1 else 1
  }

  /** `cmp_cheatcode`: by group, then status, then safety, then id. */
  function Compare(a: Cheatcode, b: Cheatcode): int {
    if a.group != b.group then CompareText(a.group, b.group)
    else if a.status != b.status then CompareText(a.status, b.status)
    else if a.safety != b.safety then CompareText(a.safety, b.safety)
    else CompareText(a.func.id, b.func.id)
  }

  lemma {:induction false} BeforeIsTotal(a: string, b: string)
    ensures a == b ==> !Before(a, b)
    ensures a != b ==> (Before(a, b) <==> !Before(b, a))
  {
    if a != [] && b != [] {
      BeforeIsTotal(a[1..], b[1..]);
      assert a == [a[0]] + a[1..] && b == [b[0]] + b[1..];
    }
  }

  lemma {:induction false} BeforeIsTransitive(a: string, b: string, c: string)
    requires Before(a, b) && Before(b, c)
    ensures Before(a, c)
  {
    if a != [] && a[0] == b[0] == c[0] {
      BeforeIsTransitive(a[1..], b[1..], c[1..]);
    }
  }

  /** Text order: at the first difference the smaller character decides, and a prefix comes first. */
  lemma {:induction false} BeforeIff(a: string, b: string) returns (n: nat)
    ensures n <= |a| && n <= |b| && a[..n] == b[..n]
    ensures n < |a| && n < |b| ==> a[n] != b[n]
    ensures Before(a, b) <==> n < |b| && (n == |a| || a[n] < b[n])
    decreases |a|
  {
    if a == [] || b == [] || a[0] != b[0] {
      n := 0;
    } else {
      var m := BeforeIff(a[1..], b[1..]);
      n := m + 1;
      assert a[..n] == [a[0]] + a[1..][..m] && b[..n] == [b[0]] + b[1..][..m];
    }
  }

  /** The fields decide in turn: group, then status, then safety, then id. */
  lemma ComparePriority(a: Cheatcode, b: Cheatcode)
    ensures Compare(a, b) < 0 <==>
      || Before(a.group, b.group)
      || (a.group == b.group && Before(a.status, b.status))
      || (a.group == b.group && a.status == b.status && Before(a.safety, b.safety))
      || (a.group == b.group && a.status == b.status && a.safety == b.safety && Before(a.func.id, b.func.id))
  {
    BeforeIsTotal(a.group, b.group);
    BeforeIsTotal(a.status, b.status);
    BeforeIsTotal(a.safety, b.safety);
    BeforeIsTotal(a.func.id, b.func.id);
    hide Before;
  }

  /** The order is a total preorder in which only the four compared fields matter. */
  lemma CompareIsAnOrder(a: Cheatcode, b: Cheatcode, c: Cheatcode)
    ensures Compare(a, b) == -Compare(b, a)
    ensures Compare(a, b) == 0
       <==> a.group == b.group && a.status == b.status && a.safety == b.safety && a.func.id == b.func.id
    ensures Compare(a, b) <= 0 && Compare(b, c) <= 0 ==> Compare(a, c) <= 0
  {
    TextOrder(a.group, b.group, c.group);
    TextOrder(a.status, b.status, c.status);
    TextOrder(a.safety, b.safety, c.safety);
    TextOrder(a.func.id, b.func.id, c.func.id);
  }

  lemma TextOrder(a: string, b: string, c: string)
    ensures CompareText(a, b) == -CompareText(b, a)
    ensures CompareText(a, b) < 0 && CompareText(b, c) < 0 ==> CompareText(a, c) < 0
  {
    BeforeIsTotal(a, b);
    BeforeIsTotal(a, c);
    if Before(a, b) && Before(b, c) {
      BeforeIsTransitive(a, b, c);
    }
  }

  /** What a sort by `cmp_cheatcode` leaves: no entry is less than the one before it. */
  ghost predicate Sorted(cheats: seq<Cheatcode>) {
    forall i :: 0 <= i < |cheats| - 1 ==> Compare(cheats[i], cheats[i + 1]) <= 0
  }

  lemma {:induction false} SortedPairs(cheats: seq<Cheatcode>, i: nat, j: nat)
    requires Sorted(cheats) && i <= j < |cheats|
    ensures Compare(cheats[i], cheats[j]) <= 0
    decreases j
  {
    if i < j {
      SortedPairs(cheats, i, j - 1);
      CompareIsAnOrder(cheats[i], cheats[j - 1], cheats[j]);
    }
  }

  // ---------- Headers ----------

  function UpperChar(c: char): char {
    if 'a' <= c <= 'z' then (c as int - 32) as char else c
  }

  /** `group()`, which raises on the empty name; the loop below stops there. */
  function GroupTitle(s: string): string {
    if s == "" then "" else if s == "evm" then "EVM" else if s == "json" then "JSON" else [UpperChar(s[0])] + s[1..]
  }

  function Header(c: Cheatcode): (h: Cheatcode)
    ensures h.group == c.group
  {
    c.(func := c.func.(description := "", declaration := "// ======== " + GroupTitle(c.group) + " ========"))
  }

  /** A header shows a comment with the group's title, and is like the entry in everything else. */
  lemma HeaderText(c: Cheatcode)
    requires c.group != ""
    ensures var h := Header(c);
            && h.group == c.group && h.status == c.status && h.safety == c.safety
            && h.func.description == ""
            && h.func.id == c.func.id && h.func.visibility == c.func.visibility
            && h.func.mutability == c.func.mutability && h.func.signature == c.func.signature
            && h.func.selector == c.func.selector
            && |h.func.declaration| == 21 + |c.group|
            && h.func.declaration[..12] == "// ======== "
            && h.func.declaration[12 + |c.group|..] == " ========"
            && (c.group == "evm" ==> h.func.declaration[12..15] == "EVM")
            && (c.group == "json" ==> h.func.declaration[12..16] == "JSON")
            && (c.group != "evm" && c.group != "json" ==>
                  && h.func.declaration[13..12 + |c.group|] == c.group[1..]
                  && h.func.declaration[12] == UpperChar(c.group[0]))
    ensures UpperChar('a') == 'A' && UpperChar('z') == 'Z' && UpperChar('Z') == 'Z' && UpperChar('0') == '0'
  {
    var d, t := Header(c).func.declaration, GroupTitle(c.group);
    assert |t| == |c.group|;
    assert d == "// ======== " + t + " ========";
    assert d[12..12 + |t|] == t;
    assert d[13..12 + |t|] == t[1..];
  }

  function Groups(cheats: seq<Cheatcode>): set<string> {
    if cheats == [] then {} else Groups(cheats[..|cheats| - 1]) + {cheats[|cheats| - 1].group}
  }

  /** Reference: each entry as it is, after a header if it is the first of its group. */
  function WithHeaders(cheats: seq<Cheatcode>): seq<Cheatcode> {
    if cheats == [] then []
    else WithHeaders(cheats[..|cheats| - 1]) + Entry(cheats[..|cheats| - 1], cheats[|cheats| - 1])
  }

  function Entry(before: seq<Cheatcode>, c: Cheatcode): seq<Cheatcode> {
    if c.group in Groups(before) then [c] else [Header(c), c]
  }

  predicate AllNamed(cheats: seq<Cheatcode>) {
    forall i :: 0 <= i < |cheats| ==> cheats[i].group != ""
  }

  /** The index of the first entry without a group name, or the length of the list. */
  function FirstUnnamed(cheats: seq<Cheatcode>): (n: nat)
    ensures n <= |cheats| && AllNamed(cheats[..n])
    ensures n < |cheats| ==> cheats[n].group == ""
  {
    if cheats == [] then 0
    else
      var n := FirstUnnamed(cheats[..|cheats| - 1]);
      assert cheats[..|cheats| - 1][..n] == cheats[..n];
      if n < |cheats| - 1 || cheats[|cheats| - 1].group == "" then n else n + 1
  }

  lemma {:induction false} InGroups(cheats: seq<Cheatcode>, i: nat)
    requires i < |cheats|
    ensures cheats[i].group in Groups(cheats)
  {
    if i < |cheats| - 1 {
      InGroups(cheats[..|cheats| - 1], i);
    }
  }

  lemma {:induction false} MemberOf(cheats: seq<Cheatcode>, group: string) returns (i: nat)
    requires group in Groups(cheats)
    ensures i < |cheats| && cheats[i].group == group
  {
    if cheats[|cheats| - 1].group == group {
      i := |cheats| - 1;
    } else {
      i := MemberOf(cheats[..|cheats| - 1], group);
    }
  }

  lemma Snoc(cheats: seq<Cheatcode>, c: Cheatcode)
    ensures Groups(cheats + [c]) == Groups(cheats) + {c.group}
    ensures WithHeaders(cheats + [c]) == WithHeaders(cheats) + Entry(cheats, c)
    ensures EraseFirsts(cheats + [c]) == EraseFirsts(cheats) + if c.group in Groups(cheats) then [c] else []
  {
    assert (cheats + [c])[..|cheats|] == cheats;
  }

  lemma NothingYet()
    ensures Groups([]) == {} && WithHeaders([]) == []
  {
  }

  /** The first n entries done, and the header of the next one inserted or not. */
  function Partial(cheats: seq<Cheatcode>, n: nat, header: seq<Cheatcode>): seq<Cheatcode>
    requires n <= |cheats|
  {
    WithHeaders(cheats[..n]) + header + cheats[n..]
  }

  class CheatcodeList {
    var items: seq<Cheatcode>

    constructor (items: seq<Cheatcode>)
      ensures this.items == items
    {
      this.items := items;
    }

    /**
     * The loop ends on every list. It puts headers in front of the first members; at an entry
     * with an empty group name it raises, leaving the headers added so far.
     */
    method PrefixWithGroupHeaders() returns (ok: bool)
      modifies this
      ensures ok <==> AllNamed(old(items))
      ensures ok ==> items == WithHeaders(old(items))
      ensures !ok ==> items == Partial(old(items), FirstUnnamed(old(items)), [])
    {
      hide Header, Groups, WithHeaders, FirstUnnamed;
      var s: set<string> := {};
      var i := 0;
      ghost var cheats, n := items, 0;
      ghost var header: seq<Cheatcode> := [];
      assert cheats[..0] == [] && cheats[0..] == cheats;
      NothingYet();
      CurrentEntry(cheats, 0, [], 0);
      assert items == Partial(cheats, 0, []);
      hide Partial;
      while i < |items|
        invariant n <= |cheats| && AllNamed(cheats[..n])
        invariant items == Partial(cheats, n, header)
        invariant i == |WithHeaders(cheats[..n])| + |header|
        invariant header == [] || (n < |cheats| && header == [Header(cheats[n])] && cheats[n].group != ""
                                   && cheats[n].group !in Groups(cheats[..n]))
        invariant s == Groups(cheats[..n]) + (if header != [] then {cheats[n].group} else {})
        decreases Groups(cheats) - s, |items| - i
      {
        CurrentEntry(cheats, n, header, i);
        var cheat := items[i];
        if cheat.group in s {
          Passed(cheats, n, header);
          n, header := n + 1, [];
        } else {
          InGroups(cheats, n);
          s := s + {cheat.group};
          if cheat.group == "" {
            Stopped(cheats, n);
            return false;
          }
          Inserted(cheats, n, items, i);
          items := items[..i] + [Header(cheat)] + items[i..];
          header := [Header(cheat)];
        }
        i := i + 1;
      }
      CurrentEntry(cheats, n, header, i);
      assert cheats[..n] == cheats;
      ok := true;
    }
  }

  /** Stepping over an entry whose group is known, with or without a header just inserted. */
  lemma Passed(cheats: seq<Cheatcode>, n: nat, header: seq<Cheatcode>)
    requires n < |cheats| && AllNamed(cheats[..n])
    requires cheats[n].group in Groups(cheats[..n]) + (if header != [] then {cheats[n].group} else {})
    requires header == [] || (header == [Header(cheats[n])] && cheats[n].group != ""
                              && cheats[n].group !in Groups(cheats[..n]))
    ensures AllNamed(cheats[..n + 1])
    ensures Partial(cheats, n + 1, []) == Partial(cheats, n, header)
    ensures |WithHeaders(cheats[..n + 1])| == |WithHeaders(cheats[..n])| + |header| + 1
    ensures Groups(cheats[..n + 1]) == Groups(cheats[..n]) + {cheats[n].group}
  {
    hide Header, Groups, WithHeaders, EraseFirsts;
    assert cheats[..n + 1] == cheats[..n] + [cheats[n]];
    Snoc(cheats[..n], cheats[n]);
    if header == [] {
      var i := MemberOf(cheats[..n], cheats[n].group);
      assert cheats[n].group == cheats[..n][i].group;
    }
    assert cheats[n..] == [cheats[n]] + cheats[n + 1..];
    assert WithHeaders(cheats[..n + 1]) == WithHeaders(cheats[..n]) + header + [cheats[n]];
  }

  /** Putting the header of the next entry in front of it. */
  lemma Inserted(cheats: seq<Cheatcode>, n: nat, items: seq<Cheatcode>, i: nat)
    requires n < |cheats| && items == Partial(cheats, n, []) && i == |WithHeaders(cheats[..n])|
    ensures i < |items| && items[i] == cheats[n]
    ensures items[..i] + [Header(cheats[n])] + items[i..] == Partial(cheats, n, [Header(cheats[n])])
    ensures |Partial(cheats, n, [Header(cheats[n])])| == |items| + 1
  {
    hide Header, WithHeaders;
    var done := WithHeaders(cheats[..n]);
    assert items[..i] == done && items[i..] == cheats[n..];
  }

  lemma CurrentEntry(cheats: seq<Cheatcode>, n: nat, header: seq<Cheatcode>, i: nat)
    requires n <= |cheats| && i == |WithHeaders(cheats[..n])| + |header|
    ensures |Partial(cheats, n, header)| == i + |cheats| - n
    ensures n < |cheats| ==> Partial(cheats, n, header)[i] == cheats[n]
    ensures n == |cheats| && header == [] ==> Partial(cheats, n, header) == WithHeaders(cheats)
  {
    assert cheats[..|cheats|] == cheats;
  }

  lemma Stopped(cheats: seq<Cheatcode>, n: nat)
    requires n < |cheats| && AllNamed(cheats[..n]) && cheats[n].group == ""
    ensures FirstUnnamed(cheats) == n
    ensures !AllNamed(cheats)
  {
    var m := FirstUnnamed(cheats);
    assert m == |cheats| || cheats[m].group == "";
    assert forall i :: 0 <= i < n ==> cheats[..n][i] == cheats[i];
    assert forall i :: 0 <= i < m ==> cheats[..m][i] == cheats[i];
  }

  // ---------- What the headers mean ----------

  /** Drops the first entry of every group. */
  function EraseFirsts(cheats: seq<Cheatcode>): seq<Cheatcode> {
    if cheats == [] then []
    else
      var init, last := cheats[..|cheats| - 1], cheats[|cheats| - 1];
      EraseFirsts(init) + if last.group in Groups(init) then [last] else []
  }

  lemma AfterEntry(out: seq<Cheatcode>, before: seq<Cheatcode>, c: Cheatcode)
    requires Groups(out) == Groups(before)
    ensures Groups(out + Entry(before, c)) == Groups(before) + {c.group}
    ensures EraseFirsts(out + Entry(before, c)) == EraseFirsts(out) + [c]
  {
    hide Header, Groups, WithHeaders, EraseFirsts;
    if c.group in Groups(before) {
      Snoc(out, c);
    } else {
      Snoc(out, Header(c));
      Snoc(out + [Header(c)], c);
      assert out + [Header(c)] + [c] == out + [Header(c), c];
    }
  }

  /** Erasing the headers gives the input back, and there is one for each distinct group. */
  lemma {:induction false} ErasingHeadersRestores(cheats: seq<Cheatcode>)
    ensures EraseFirsts(WithHeaders(cheats)) == cheats
    ensures Groups(WithHeaders(cheats)) == Groups(cheats)
    ensures |WithHeaders(cheats)| == |cheats| + |Groups(cheats)|
  {
    if cheats != [] {
      hide Header, Groups, EraseFirsts, WithHeaders;
      var init, last := cheats[..|cheats| - 1], cheats[|cheats| - 1];
      assert cheats == init + [last];
      ErasingHeadersRestores(init);
      AfterEntry(WithHeaders(init), init, last);
      Snoc(init, last);
      if last.group in Groups(init) {
        assert Groups(cheats) == Groups(init);
      } else {
        assert |Groups(cheats)| == |Groups(init)| + 1;
      }
    }
  }

  ghost predicate FirstOfGroup(cheats: seq<Cheatcode>, i: nat)
    requires i < |cheats|
  {
    cheats[i].group !in Groups(cheats[..i])
  }

  /** Being first of a group means what it says. */
  lemma FirstOfGroupMeans(cheats: seq<Cheatcode>, i: nat)
    requires i < |cheats|
    ensures FirstOfGroup(cheats, i) <==> forall j :: 0 <= j < i ==> cheats[j].group != cheats[i].group
  {
    if FirstOfGroup(cheats, i) {
      forall j | 0 <= j < i ensures cheats[j].group != cheats[i].group {
        InGroups(cheats[..i], j);
      }
    } else {
      var j := MemberOf(cheats[..i], cheats[i].group);
      assert cheats[j].group == cheats[i].group;
    }
  }

  lemma FirstOfEntry(out: seq<Cheatcode>, before: seq<Cheatcode>, c: Cheatcode, i: nat)
    requires Groups(out) == Groups(before) && |out| <= i < |out + Entry(before, c)|
    requires FirstOfGroup(out + Entry(before, c), i)
    ensures i == |out| && c.group !in Groups(before)
  {
    hide Header, Groups, WithHeaders, EraseFirsts;
    var all := out + Entry(before, c);
    assert all[..|out|] == out;
    assert all[|out|].group == c.group && all[i].group == c.group;
    FirstOfGroupMeans(all, i);
  }

  /** The first entry of a group is its header and stands directly before the group's first member. */
  lemma {:induction false} HeaderBeforeFirstMember(cheats: seq<Cheatcode>, i: nat) returns (k: nat)
    requires i < |WithHeaders(cheats)| && FirstOfGroup(WithHeaders(cheats), i)
    ensures k < |cheats| && FirstOfGroup(cheats, k) && i + 1 < |WithHeaders(cheats)|
    ensures WithHeaders(cheats)[i] == Header(cheats[k]) && WithHeaders(cheats)[i + 1] == cheats[k]
    decreases |cheats|
  {
    hide Header, Groups, WithHeaders, EraseFirsts;
    NothingYet();
    var init, last := cheats[..|cheats| - 1], cheats[|cheats| - 1];
    var out, before := WithHeaders(cheats), WithHeaders(init);
    assert cheats == init + [last];
    Snoc(init, last);
    ErasingHeadersRestores(init);
    if i < |before| {
      assert out[..i] == before[..i] && out[i] == before[i];
      assert FirstOfGroup(before, i);
      k := HeaderBeforeFirstMember(init, i);
      assert init[..k] == cheats[..k];
    } else {
      k := |cheats| - 1;
      FirstOfEntry(before, init, last, i);
    }
  }

  /** On a sorted list every header covers its whole group: nothing of another group lies in between. */
  lemma HeadersCoverGroups(cheats: seq<Cheatcode>, i: nat, j: nat, k: nat)
    requires Sorted(cheats)
    requires i <= j <= k < |WithHeaders(cheats)|
    requires WithHeaders(cheats)[i].group == WithHeaders(cheats)[k].group
    ensures WithHeaders(cheats)[j].group == WithHeaders(cheats)[i].group
  {
    HeadersKeepOrder(cheats, i, j);
    HeadersKeepOrder(cheats, j, k);
    var out := WithHeaders(cheats);
    hide WithHeaders, Before;
    TextOrder(out[i].group, out[j].group, out[k].group);
    TextOrder(out[j].group, out[k].group, out[i].group);
  }

  lemma {:induction false} HeadersKeepOrder(cheats: seq<Cheatcode>, i: nat, j: nat)
    requires Sorted(cheats)
    requires i <= j < |WithHeaders(cheats)|
    ensures CompareText(WithHeaders(cheats)[i].group, WithHeaders(cheats)[j].group) <= 0
    decreases |cheats|
  {
    hide Header, Before, Groups, WithHeaders, EraseFirsts;
    NothingYet();
    var init, last := cheats[..|cheats| - 1], cheats[|cheats| - 1];
    var out, before := WithHeaders(cheats), WithHeaders(init);
    assert cheats == init + [last];
    Snoc(init, last);
    if j < |before| {
      HeadersKeepOrder(init, i, j);
    } else {
      assert out[j].group == last.group;
      if i < |before| {
        ErasingHeadersRestores(init);
        InGroups(before, i);
        var x := MemberOf(init, before[i].group);
        SortedPairs(cheats, x, |cheats| - 1);
        assert cheats[x] == init[x];
      } else {
        assert out[i].group == last.group;
      }
    }
  }
}
