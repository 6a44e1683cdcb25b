/** Cursor pagination over the participants of a qblock. */
module Paging {
  import opened Common
  import opened Sorting
  import opened Registry

  const PAGE_LIMIT: nat := 1000

  predicate AccountLe(a: Account, b: Account) {
    a <= b
  }

  ghost predicate Increasing(s: seq<Account>) {
    forall i, j :: 0 <= i < j < |s| ==> s[i] < s[j]
  }

  /** `s` lists the members of `keys` in increasing order. */
  ghost predicate Enumerates(s: seq<Account>, keys: set<Account>) {
    Increasing(s) && forall a :: a in s <==> a in keys
  }

  /** Keys strictly after the cursor; all of them without one. */
  function After(keys: set<Account>, cursor: Option<Account>): set<Account> {
    set a | a in keys && (cursor.Some? ==> a > cursor.value)
  }

  lemma FirstIsListed(s: seq<Account>, keys: set<Account>)
    requires Enumerates(s, keys) && s != []
    ensures s[0] in keys
  {
    assert s[0] in s;
  }

  /** There is only one increasing enumeration of a set. */
  lemma {:induction false} EnumerationUnique(s: seq<Account>, t: seq<Account>, keys: set<Account>)
    requires Enumerates(s, keys) && Enumerates(t, keys)
    ensures s == t
    decreases |s|
  {
    if t != [] {
      FirstIsListed(t, keys);
    }
    if s != [] {
      assert s[0] in keys && s[0] in t;
      FirstIsLeast(s, keys, t);
      FirstIsLeast(t, keys, s);
      EnumeratesTail(s, keys);
      EnumeratesTail(t, keys);
      EnumerationUnique(s[1..], t[1..], keys - {s[0]});
      assert s == [s[0]] + s[1..] && t == [t[0]] + t[1..];
    }
  }

  lemma FirstIsLeast(s: seq<Account>, keys: set<Account>, t: seq<Account>)
    requires Enumerates(s, keys) && Enumerates(t, keys) && s != [] && t != []
    ensures s[0] <= t[0]
  {
    assert t[0] in keys;
    var i :| 0 <= i < |s| && s[i] == t[0];
  }

  lemma EnumeratesTail(s: seq<Account>, keys: set<Account>)
    requires Enumerates(s, keys) && s != []
    ensures Enumerates(s[1..], keys - {s[0]})
  {
    assert s == [s[0]] + s[1..];
    forall a ensures a in s[1..] <==> a in keys - {s[0]} {
      if a in s[1..] {
        assert a in s;
      }
    }
  }

  /** It is as long as the set is large. */
  lemma {:induction false} EnumerationLength(s: seq<Account>, keys: set<Account>)
    requires Enumerates(s, keys)
    ensures |s| == |keys|
    decreases |s|
  {
    if s == [] {
      assert keys == {};
    } else {
      FirstIsListed(s, keys);
      EnumeratesTail(s, keys);
      EnumerationLength(s[1..], keys - {s[0]});
    }
  }

  /** Cutting an enumeration leaves the enumeration of the keys after the cut. */
  lemma EnumeratesAfter(s: seq<Account>, keys: set<Account>, k: nat)
    requires Enumerates(s, keys) && 1 <= k <= |s|
    ensures Enumerates(s[k..], After(keys, Some(s[k - 1])))
  {
    forall a | a in s[k..] ensures a in After(keys, Some(s[k - 1])) {
      var i :| k <= i < |s| && s[i] == a;
    }
    forall a | a in After(keys, Some(s[k - 1])) ensures a in s[k..] {
      var i :| 0 <= i < |s| && s[i] == a;
      assert i >= k;
      assert s[k..][i - k] == a;
    }
  }

  lemma AfterAfter(keys: set<Account>, cursor: Option<Account>, next: Account)
    requires next in After(keys, cursor)
    ensures After(After(keys, cursor), Some(next)) == After(keys, Some(next))
  {
  }

  /** One page: the first accounts after the cursor, in order. */
  ghost predicate IsPage(page: seq<Account>, keys: set<Account>, cursor: Option<Account>, limit: nat) {
    exists all :: Enumerates(all, After(keys, cursor)) && page == all[..Min(Min(limit, PAGE_LIMIT), |all|)]
  }

  function AccountsOf(page: seq<(Account, Record)>): (accounts: seq<Account>) {
    seq(|page|, i requires 0 <= i < |page| => page[i].0)
  }

  /** `participants_by_qblock`: filter, sort, truncate. */
  method ParticipantsByQblock(entries: map<Account, Record>, startAfter: Option<Account>, limit: nat)
    returns (page: seq<(Account, Record)>)
    ensures IsPage(AccountsOf(page), entries.Keys, startAfter, limit)
    ensures forall i :: 0 <= i < |page| ==> page[i].0 in entries && page[i].1 == entries[page[i].0]
    ensures |page| == Min(Min(limit, 1000), |set a | a in entries && (startAfter.Some? ==> a > startAfter.value)|)
  {
    var size := Min(limit, PAGE_LIMIT);
    var found := Collect(entries, startAfter);
    assert TotalOrder(AccountLe);
    var sorted := Sort(found, AccountLe);
    SortEnumerates(found, After(entries.Keys, startAfter));
    EnumerationLength(sorted, After(entries.Keys, startAfter));
    assert After(entries.Keys, startAfter) == set a | a in entries && (startAfter.Some? ==> a > startAfter.value);
    var kept := sorted[..Min(size, |sorted|)];
    forall i | 0 <= i < |kept| ensures kept[i] in entries {
      assert kept[i] in sorted;
    }
    page := seq(|kept|, i requires 0 <= i < |kept| => (kept[i], entries[kept[i]]));
    assert AccountsOf(page) == kept;
  }

  /** The rows of the prefix after the cursor, in storage order. */
  method Collect(entries: map<Account, Record>, startAfter: Option<Account>) returns (found: seq<Account>)
    ensures Distinct(found)
    ensures forall a :: a in found <==> a in After(entries.Keys, startAfter)
  {
    found := [];
    var rest := entries.Keys;
    while rest != {}
      invariant rest <= entries.Keys
      invariant Distinct(found)
      invariant forall a :: a in found <==> a in After(entries.Keys, startAfter) && a !in rest
      decreases |rest|
    {
      var a :| a in rest;
      rest := rest - {a};
      if startAfter.None? || a > startAfter.value {
        found := found + [a];
      }
    }
  }

  lemma {:induction false} DistinctMultiset(s: seq<Account>, a: Account)
    requires Distinct(s)
    ensures multiset(s)[a] <= 1
  {
    if s != [] {
      var k := |s| - 1;
      DistinctMultiset(s[..k], a);
      assert s == s[..k] + [s[k]];
      if a == s[k] {
        assert a !in s[..k];
      }
    }
  }

  lemma SortEnumerates(found: seq<Account>, keys: set<Account>)
    requires Distinct(found)
    requires forall a :: a in found <==> a in keys
    ensures Enumerates(Sort(found, AccountLe), keys)
  {
    var sorted := Sort(found, AccountLe);
    assert TotalOrder(AccountLe);
    SortCorrect(found, AccountLe);
    forall a ensures a in sorted <==> a in keys {
      assert a in sorted <==> a in multiset(sorted);
      assert a in found <==> a in multiset(found);
    }
    forall i, j | 0 <= i < j < |sorted| ensures sorted[i] < sorted[j] {
      assert AccountLe(sorted[i], sorted[j]);
      if sorted[i] == sorted[j] {
        DistinctMultiset(found, sorted[i]);
        TwiceInMultiset(sorted, i, j);
      }
    }
  }

  lemma TwiceInMultiset(s: seq<Account>, i: nat, j: nat)
    requires i < j < |s| && s[i] == s[j]
    ensures multiset(s)[s[i]] >= 2
  {
    assert s == s[..i] + [s[i]] + s[i + 1..j] + [s[j]] + s[j + 1..];
  }

  /** Successive pages, each starting after the last account of the one before,
      until an empty page. */
  ghost predicate PagesThrough(pages: seq<seq<Account>>, keys: set<Account>, cursor: Option<Account>, limit: nat)
    decreases |pages|
  {
    if pages == [] then IsPage([], keys, cursor, limit)
    else
      && pages[0] != [] && IsPage(pages[0], keys, cursor, limit)
      && PagesThrough(pages[1..], keys, Some(pages[0][|pages[0]| - 1]), limit)
  }

  function Flatten(pages: seq<seq<Account>>): seq<Account> {
    if pages == [] then [] else pages[0] + Flatten(pages[1..])
  }

  /** The rest of the enumeration after one non-empty page. */
  lemma PageCut(page: seq<Account>, keys: set<Account>, cursor: Option<Account>, limit: nat)
    returns (rest: seq<Account>)
    requires page != [] && IsPage(page, keys, cursor, limit)
    ensures Enumerates(page + rest, After(keys, cursor))
    ensures Enumerates(rest, After(keys, Some(page[|page| - 1])))
  {
    var all :| Enumerates(all, After(keys, cursor)) && page == all[..Min(Min(limit, PAGE_LIMIT), |all|)];
    var k := |page|;
    rest := all[k..];
    assert page + rest == all;
    assert page[k - 1] == all[k - 1] && all[k - 1] in all;
    EnumeratesAfter(all, After(keys, cursor), k);
    AfterAfter(keys, cursor, page[k - 1]);
  }

  /** An empty page means nothing is left. */
  lemma EmptyPage(keys: set<Account>, cursor: Option<Account>, limit: nat)
    requires limit > 0 && IsPage([], keys, cursor, limit)
    ensures Enumerates([], After(keys, cursor))
  {
    var all :| Enumerates(all, After(keys, cursor)) && [] == all[..Min(Min(limit, PAGE_LIMIT), |all|)];
    assert all == [];
  }

  /** Paging with any positive limit lists every account after the cursor exactly
      once, in increasing order. */
  lemma {:induction false} PagingIsComplete(pages: seq<seq<Account>>, keys: set<Account>, cursor: Option<Account>,
                                            limit: nat)
    requires limit > 0 && PagesThrough(pages, keys, cursor, limit)
    ensures Enumerates(Flatten(pages), After(keys, cursor))
    decreases |pages|
  {
    if pages == [] {
      EmptyPage(keys, cursor, limit);
    } else {
      var last := pages[0][|pages[0]| - 1];
      var rest := PageCut(pages[0], keys, cursor, limit);
      PagingIsComplete(pages[1..], keys, Some(last), limit);
      EnumerationUnique(Flatten(pages[1..]), rest, After(keys, Some(last)));
    }
  }

  /** And it comes to an end: the pages exist, whatever the limit. */
  lemma {:induction false} PagingEnds(all: seq<Account>, keys: set<Account>, cursor: Option<Account>, limit: nat)
    returns (pages: seq<seq<Account>>)
    requires limit > 0 && Enumerates(all, After(keys, cursor))
    ensures PagesThrough(pages, keys, cursor, limit)
    decreases |all|
  {
    var k := Min(Min(limit, PAGE_LIMIT), |all|);
    var page := all[..k];
    assert IsPage(page, keys, cursor, limit);
    if page == [] {
      pages := [];
    } else {
      assert all[k - 1] in all;
      EnumeratesAfter(all, After(keys, cursor), k);
      AfterAfter(keys, cursor, all[k - 1]);
      var rest := PagingEnds(all[k..], keys, Some(all[k - 1]), limit);
      pages := [page] + rest;
      assert pages[1..] == rest;
    }
  }
}
