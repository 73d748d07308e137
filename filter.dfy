/**
 * The search box (`filter_commands`): the table restricted to the entries
 * whose lower-cased name contains the lower-cased query. A group none of
 * whose entries match is left out; an empty query shows the whole table.
 */
module CommandFilter {
  import opened PyText
  import opened CommandTable

  /** `q in name.lower()`, for a query already lower-cased. */
  predicate Matches(e: Entry, q: string) {
    Contains(Lower(e.name), q)
  }

  /** `[c for c in entries if q in c[0].lower()]`. */
  function Keep(entries: seq<Entry>, q: string): (r: seq<Entry>)
    ensures |r| <= |entries|
    ensures forall e :: e in r ==> e in entries && Matches(e, q)
  {
    if entries == [] then []
    else (if Matches(entries[0], q) then [entries[0]] else []) + Keep(entries[1..], q)
  }

  /** `a` is `b` with some elements left out, the rest in the same order. */
  predicate IsSubsequence<T(==)>(a: seq<T>, b: seq<T>)
    decreases |b|
  {
    a == [] || (b != [] && ((a[0] == b[0] && IsSubsequence(a[1..], b[1..])) || IsSubsequence(a, b[1..])))
  }

  /** The group with only its matching entries. */
  function Shrink(g: Group, q: string): Group {
    Group(g.name, Keep(g.commands, q), Keep(g.acks, q))
  }

  predicate HasEntries(g: Group) {
    g.commands != [] || g.acks != []
  }

  /** The loop over `groups_data.items()` for a non-empty query. */
  function FilterTable(t: Table, q: string): (r: Table)
    ensures |r| <= |t|
  {
    if t == [] then []
    else
      var g := Shrink(t[0], q);
      (if HasEntries(g) then [g] else []) + FilterTable(t[1..], q)
  }

  /** `filtered_data` after `filter_commands` with search text `query`. */
  function Filtered(t: Table, query: string): (r: Table)
    ensures |r| <= |t|
  {
    var q := Lower(query);
    if q == [] then t else FilterTable(t, q)
  }

  // ---------------------------------------------------------------------
  // The entries of one group.
  // ---------------------------------------------------------------------

  /** An entry survives exactly when it was there and matches. */
  lemma {:induction false} KeepMembership(entries: seq<Entry>, q: string, e: Entry)
    ensures e in Keep(entries, q) <==> e in entries && Matches(e, q)
  {
    if entries != [] {
      KeepMembership(entries[1..], q, e);
      assert entries == [entries[0]] + entries[1..];
    }
  }

  /** The survivors keep their file order. */
  lemma {:induction false} KeepSubsequence(entries: seq<Entry>, q: string)
    ensures IsSubsequence(Keep(entries, q), entries)
  {
    if entries != [] {
      KeepSubsequence(entries[1..], q);
      var rest := Keep(entries[1..], q);
      if Matches(entries[0], q) {
        assert Keep(entries, q) == [entries[0]] + rest;
      } else {
        assert Keep(entries, q) == rest;
      }
    }
  }

  /** Each matching entry is kept as often as it occurs, and a non-matching one not at all. */
  lemma {:induction false} KeepCounts(entries: seq<Entry>, q: string, e: Entry)
    ensures multiset(Keep(entries, q))[e] == if Matches(e, q) then multiset(entries)[e] else 0
  {
    if entries != [] {
      KeepCounts(entries[1..], q, e);
      assert entries == [entries[0]] + entries[1..];
    }
  }

  /** Every name contains the empty query, so it keeps everything. */
  lemma {:induction false} KeepAll(entries: seq<Entry>, q: string)
    requires forall i :: 0 <= i < |entries| ==> Matches(entries[i], q)
    ensures Keep(entries, q) == entries
  {
    if entries != [] {
      KeepAll(entries[1..], q);
      assert entries == [entries[0]] + entries[1..];
    }
  }

  lemma {:induction false} KeepTwice(entries: seq<Entry>, q: string)
    ensures Keep(Keep(entries, q), q) == Keep(entries, q)
  {
    var r := Keep(entries, q);
    forall i | 0 <= i < |r| ensures Matches(r[i], q) {
      assert r[i] in r;
    }
    KeepAll(r, q);
  }

  // ---------------------------------------------------------------------
  // The table.
  // ---------------------------------------------------------------------

  /** An empty search shows the whole table. */
  lemma EmptyQueryShowsAll(t: Table)
    ensures Filtered(t, "") == t
  {
  }

  /** A query is empty after lower-casing only when it was empty. */
  lemma NonEmptyQueryFilters(t: Table, query: string)
    requires query != []
    ensures Filtered(t, query) == FilterTable(t, Lower(query))
  {
  }

  /** No group in the filtered table is empty. */
  lemma {:induction false} FilterDropsEmptyGroups(t: Table, q: string)
    ensures forall i :: 0 <= i < |FilterTable(t, q)| ==> HasEntries(FilterTable(t, q)[i])
  {
    if t != [] {
      FilterDropsEmptyGroups(t[1..], q);
    }
  }

  /**
   * A group is in the filtered table exactly when some group of the table,
   * cut down to its matching entries, is that group and still has entries.
   */
  lemma {:induction false} FilterMembership(t: Table, q: string, g: Group)
    ensures g in FilterTable(t, q) <==> HasEntries(g) && exists i :: 0 <= i < |t| && g == Shrink(t[i], q)
  {
    if t != [] {
      FilterMembership(t[1..], q, g);
      if g in FilterTable(t, q) {
        if g != Shrink(t[0], q) {
          assert g in FilterTable(t[1..], q);
          var i :| 0 <= i < |t[1..]| && g == Shrink(t[1..][i], q);
          assert g == Shrink(t[i + 1], q);
        }
      }
      if HasEntries(g) && exists i :: 0 <= i < |t| && g == Shrink(t[i], q) {
        var i :| 0 <= i < |t| && g == Shrink(t[i], q);
        if i > 0 {
          assert g == Shrink(t[1..][i - 1], q);
        }
      }
    }
  }

  /** A group name is shown exactly when one of the group's commands or acks matches. */
  lemma ShownIffSomeEntryMatches(t: Table, q: string, i: nat)
    requires i < |t|
    ensures HasEntries(Shrink(t[i], q)) <==>
      exists e :: (e in t[i].commands || e in t[i].acks) && Matches(e, q)
  {
    var g := Shrink(t[i], q);
    if exists e :: (e in t[i].commands || e in t[i].acks) && Matches(e, q) {
      var e :| (e in t[i].commands || e in t[i].acks) && Matches(e, q);
      KeepMembership(t[i].commands, q, e);
      KeepMembership(t[i].acks, q, e);
    }
    if HasEntries(g) {
      if g.commands != [] {
        assert g.commands[0] in g.commands;
      } else {
        assert g.acks[0] in g.acks;
      }
    }
  }

  /** The groups keep their order. */
  lemma {:induction false} FilterKeepsOrder(t: Table, q: string)
    ensures IsSubsequence(Names(FilterTable(t, q)), Names(t))
  {
    if t != [] {
      FilterKeepsOrder(t[1..], q);
      var rest := FilterTable(t[1..], q);
      assert Names(t)[1..] == Names(t[1..]);
      var g := Shrink(t[0], q);
      if HasEntries(g) {
        assert FilterTable(t, q) == [g] + rest;
        assert Names([g] + rest)[1..] == Names(rest);
      } else {
        assert FilterTable(t, q) == rest;
      }
    }
  }

  /** `g` is some group of `t` with entries left out. */
  predicate SubGroupOf(g: Group, t: Table) {
    exists i :: 0 <= i < |t| && t[i].name == g.name
      && IsSubsequence(g.commands, t[i].commands) && IsSubsequence(g.acks, t[i].acks)
  }

  /**
   * The filtered table is a sub-table: each of its groups comes from a group of
   * the same name, and its lists are that group's lists with entries left out.
   */
  lemma FilterIsSubTable(t: Table, q: string)
    ensures forall g :: g in FilterTable(t, q) ==> SubGroupOf(g, t)
  {
    forall g | g in FilterTable(t, q) ensures SubGroupOf(g, t) {
      FilterMembership(t, q, g);
      var i :| 0 <= i < |t| && g == Shrink(t[i], q);
      KeepSubsequence(t[i].commands, q);
      KeepSubsequence(t[i].acks, q);
    }
  }

  /** Dictionary keys stay unique. */
  lemma {:induction false} FilterKeepsUniqueNames(t: Table, q: string)
    requires UniqueNames(t)
    ensures UniqueNames(FilterTable(t, q))
  {
    if t != [] {
      FilterKeepsUniqueNames(t[1..], q);
      var g := Shrink(t[0], q);
      var rest := FilterTable(t[1..], q);
      if HasEntries(g) {
        forall j | 0 <= j < |rest| ensures rest[j].name != g.name {
          assert rest[j] in rest;
          FilterMembership(t[1..], q, rest[j]);
          var k :| 0 <= k < |t[1..]| && rest[j] == Shrink(t[1..][k], q);
          assert rest[j].name == t[k + 1].name;
        }
        assert FilterTable(t, q) == [g] + rest;
      }
    }
  }

  /** Filtering again with the same query changes nothing. */
  lemma {:induction false} FilterTwice(t: Table, q: string)
    ensures FilterTable(FilterTable(t, q), q) == FilterTable(t, q)
  {
    if t != [] {
      FilterTwice(t[1..], q);
      var g := Shrink(t[0], q);
      var rest := FilterTable(t[1..], q);
      if HasEntries(g) {
        KeepTwice(t[0].commands, q);
        KeepTwice(t[0].acks, q);
        assert Shrink(g, q) == g;
        assert FilterTable(t, q) == [g] + rest;
        var u := [g] + rest;
        assert u[0] == g && u[1..] == rest;
        assert FilterTable(u, q) == [g] + FilterTable(rest, q);
      } else {
        assert FilterTable(t, q) == rest;
      }
    }
  }
}
