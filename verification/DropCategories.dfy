/** The configured categories and their blocked counters (src/spoa/drop_categories.cpp). */
module DropCategoriesModel {
  import opened StringUtils

  /** `s[i..j]` is one of the comma-separated items of `s`. */
  predicate Item(s: string, i: nat, j: nat) {
    && i <= j <= |s|
    && (i == 0 || s[i - 1] == ',') && (j == |s| || s[j] == ',')
    && forall k | i <= k < j :: s[k] != ','
  }

  /** `name` is configured by `s` in an item that ends before `end`; `trim` is always `Trim`. */
  ghost predicate Configured(trim: string -> string, s: string, end: nat, name: string) {
    name != "" && exists i: nat, j: nat {:trigger Item(s, i, j)} :: Item(s, i, j) && j < end && trim(s[i..j]) == name
  }

  /** The counters are those of the names configured by the items that end before `end`, all at zero. */
  ghost predicate Loaded(trim: string -> string, counters: map<string, nat>, s: string, end: nat) {
    && (forall name :: name in counters <==> Configured(trim, s, end, name))
    && (forall name | name in counters :: counters[name] == 0)
  }

  /** The sum of the counters. */
  ghost function Total(counters: map<string, nat>): nat
    decreases |counters|
  {
    if counters == map[] then 0
    else
      var k :| k in counters;
      counters[k] + Total(counters - {k})
  }

  /** The sum does not depend on the order in which the counters are added. */
  lemma {:induction false} TotalWithout(counters: map<string, nat>, k: string)
    requires k in counters
    ensures Total(counters) == counters[k] + Total(counters - {k})
    decreases |counters|
  {
    var first :| first in counters && Total(counters) == counters[first] + Total(counters - {first});
    if first != k {
      TotalWithout(counters - {first}, k);
      TotalWithout(counters - {k}, first);
      assert counters - {first} - {k} == counters - {k} - {first};
    }
  }

  lemma TotalBumped(counters: map<string, nat>, k: string)
    requires k in counters
    ensures Total(counters[k := counters[k] + 1]) == Total(counters) + 1
  {
    TotalWithout(counters, k);
    TotalWithout(counters[k := counters[k] + 1], k);
    assert counters[k := counters[k] + 1] - {k} == counters - {k};
  }

  class DropCategories {
    var categories: map<string, nat>

    constructor ()
      ensures categories == map[]
    {
      categories := map[];
    }

    /**
     `load`: the configured names are exactly the non-empty trimmed items, each with a counter of
     zero. The empty name is never stored.
     */
    method Load(config: string)
      modifies this
      ensures Loaded(Trim, categories, config, |config| + 1)
      ensures "" !in categories
    {
      LoadItems(config, Trim);
    }

    method LoadItems(config: string, ghost trim: string -> string)
      requires forall x: string {:trigger Trim(x)} :: trim(x) == Trim(x)
      modifies this
      ensures Loaded(trim, categories, config, |config| + 1)
    {
      categories := map[];
      var start := 0;
      while start <= |config|
        invariant 0 <= start <= |config| + 1
        invariant 0 < start <= |config| ==> config[start - 1] == ','
        invariant Loaded(trim, categories, config, start)
      {
        var end := ItemEnd(config, start);
        var name := Trim(config[start..end]);
        LoadedNext(trim, categories, config, start, end);
        if name != "" && name !in categories {
          categories := categories[name := 0];
        }
        start := end + 1;
      }
    }

    method ItemEnd(config: string, start: nat) returns (end: nat)
      requires start <= |config|
      ensures start <= end <= |config| && (end == |config| || config[end] == ',')
      ensures forall k | start <= k < end :: config[k] != ','
    {
      end := start;
      while end < |config| && config[end] != ','
        invariant start <= end <= |config|
        invariant forall k | start <= k < end :: config[k] != ','
      {
        end := end + 1;
      }
    }

    /** `match_and_increment`: counts the category if it is configured; "" means it is not. */
    method MatchAndIncrement(category: string) returns (matched: string)
      modifies this
      ensures categories.Keys == old(categories.Keys)
      ensures matched == if category in old(categories) then category else ""
      ensures categories == if category in old(categories)
                            then old(categories)[category := old(categories)[category] + 1] else old(categories)
    {
      if category !in categories {
        return "";
      }
      categories := categories[category := categories[category] + 1];
      matched := category;
    }

    /**
     `match_and_increment` over a list: of the configured categories only the first is counted.
     Without one the answer is "" and nothing changes.
     */
    method MatchFirst(list: seq<string>) returns (matched: string)
      requires "" !in categories
      modifies this
      ensures matched == "" <==> forall k | 0 <= k < |list| :: list[k] !in old(categories)
      ensures matched == "" ==> categories == old(categories)
      ensures matched != "" ==>
        && matched in old(categories) && categories == old(categories)[matched := old(categories)[matched] + 1]
        && exists k :: 0 <= k < |list| && list[k] == matched && forall j | 0 <= j < k :: list[j] !in old(categories)
    {
      for k := 0 to |list|
        invariant categories == old(categories)
        invariant forall j | 0 <= j < k :: list[j] !in categories
      {
        matched := MatchAndIncrement(list[k]);
        if matched != "" {
          return;
        }
      }
      matched := "";
    }

    /** `blocked`. */
    function Blocked(name: string): nat
      reads this
    {
      if name in categories then categories[name] else 0
    }
  }

  /** Items are visited one after the other: the next one ends at the next comma. */
  lemma NextItem(trim: string -> string, s: string, start: nat, end: nat, name: string)
    requires start <= end <= |s| && (start == 0 || s[start - 1] == ',') && (end == |s| || s[end] == ',')
    requires forall k | start <= k < end :: s[k] != ','
    ensures Configured(trim, s, end + 1, name) <==>
            Configured(trim, s, start, name) || (name != "" && name == trim(s[start..end]))
  {
    assert Item(s, start, end);
    if Configured(trim, s, end + 1, name) {
      var i: nat, j: nat :| Item(s, i, j) && j < end + 1 && trim(s[i..j]) == name;
      if j >= start {
        assert j == end;
        assert i == start;
      }
    }
  }

  lemma LoadedNext(trim: string -> string, counters: map<string, nat>, s: string, start: nat, end: nat)
    requires start <= end <= |s| && (start == 0 || s[start - 1] == ',') && (end == |s| || s[end] == ',')
    requires (forall k | start <= k < end :: s[k] != ',') && Loaded(trim, counters, s, start)
    ensures
      var name := trim(s[start..end]);
      Loaded(trim, if name != "" && name !in counters then counters[name := 0] else counters, s, end + 1)
  {
    forall name ensures Configured(trim, s, end + 1, name) <==>
                        name in counters || (name != "" && name == trim(s[start..end]))
    {
      NextItem(trim, s, start, end, name);
    }
  }
}
