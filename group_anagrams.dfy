/**
 * `groupAnagrams`: words are grouped under the key made of their characters
 * in sorted order. A `Map` keeps the groups, and the groups come out in the
 * order their keys were first inserted, as a JavaScript `Map` iterates.
 */
module GroupAnagrams {
  import opened Sequences

  /** Characters in non-decreasing order. */
  ghost predicate Ordered(s: string)
  {
    forall i, j :: 0 <= i < j < |s| ==> s[i] <= s[j]
  }

  /** Places `c` before the first character of `s` that is not smaller. */
  function Insert(c: char, s: string): string
  {
    if s == [] || c <= s[0] then [c] + s else [s[0]] + Insert(c, s[1..])
  }

  /** `word.split("").sort().join("")`: the word's characters in sorted order. */
  function Key(word: string): string
  {
    if word == [] then [] else Insert(word[0], Key(word[1..]))
  }

  /** Inserting adds exactly `c` to the characters. */
  lemma {:induction false} InsertCount(c: char, s: string)
    ensures multiset(Insert(c, s)) == multiset(s) + multiset{c}
  {
    if s != [] && !(c <= s[0]) {
      InsertCount(c, s[1..]);
      assert s == [s[0]] + s[1..];
    }
  }

  /** No character of `s` is below `x`. */
  ghost predicate AtLeast(x: char, s: string)
  {
    forall k :: 0 <= k < |s| ==> x <= s[k]
  }

  /** Inserting a character no smaller than `x` keeps `x` a lower bound. */
  lemma {:induction false} InsertAtLeast(x: char, c: char, s: string)
    requires x <= c && AtLeast(x, s)
    ensures AtLeast(x, Insert(c, s))
  {
    if s != [] && !(c <= s[0]) {
      InsertAtLeast(x, c, s[1..]);
    }
  }

  /** A lower bound in front of an ordered string keeps it ordered. */
  lemma Prepend(x: char, t: string)
    requires AtLeast(x, t) && Ordered(t)
    ensures Ordered([x] + t)
  {
    var r := [x] + t;
    forall i, j | 0 <= i < j < |r|
      ensures r[i] <= r[j]
    {
      assert r[j] == t[j - 1];
      if i > 0 {
        assert r[i] == t[i - 1];
      }
    }
  }

  /** Inserting into an ordered string keeps it ordered. */
  lemma {:induction false} InsertOrdered(c: char, s: string)
    requires Ordered(s)
    ensures Ordered(Insert(c, s))
  {
    if s == [] || c <= s[0] {
      Prepend(c, s);
    } else {
      OrderedTail(s);
      InsertOrdered(c, s[1..]);
      assert AtLeast(s[0], s[1..]) by {
        forall k | 0 <= k < |s[1..]|
          ensures s[0] <= s[1..][k]
        {
          assert s[1..][k] == s[k + 1];
        }
      }
      InsertAtLeast(s[0], c, s[1..]);
      Prepend(s[0], Insert(c, s[1..]));
    }
  }

  /** The key is ordered and holds exactly the word's characters. */
  lemma {:induction false} KeyShape(word: string)
    ensures Ordered(Key(word)) && multiset(Key(word)) == multiset(word)
  {
    if word != [] {
      KeyShape(word[1..]);
      InsertCount(word[0], Key(word[1..]));
      InsertOrdered(word[0], Key(word[1..]));
      assert word == [word[0]] + word[1..];
    }
  }

  /** Dropping the first character keeps a string ordered. */
  lemma OrderedTail(s: string)
    requires s != [] && Ordered(s)
    ensures Ordered(s[1..])
  {
    forall x, y | 0 <= x < y < |s| - 1
      ensures s[1..][x] <= s[1..][y]
    {
      assert s[1..][x] == s[x + 1] && s[1..][y] == s[y + 1];
    }
  }

  /** A string splits into its first character and the rest, in characters too. */
  lemma Split(s: string)
    requires s != []
    ensures multiset(s) == multiset{s[0]} + multiset(s[1..])
  {
    assert s == [s[0]] + s[1..];
  }

  /** The first character of an ordered string is its least. */
  lemma FirstLeast(s: string, c: char)
    requires Ordered(s) && c in multiset(s)
    ensures s[0] <= c
  {
    var k :| 0 <= k < |s| && s[k] == c;
  }

  /** Two ordered strings with the same characters are equal. */
  lemma {:induction false} OrderedUnique(a: string, b: string)
    requires Ordered(a) && Ordered(b) && multiset(a) == multiset(b)
    ensures a == b
  {
    if a != [] && b != [] {
      FirstLeast(a, b[0]);
      FirstLeast(b, a[0]);
      SameTail(a, b);
      OrderedTail(a);
      OrderedTail(b);
      OrderedUnique(a[1..], b[1..]);
      assert a == [a[0]] + a[1..] && b == [b[0]] + b[1..];
    } else {
      assert |multiset(a)| == |a| && |multiset(b)| == |b|;
    }
  }

  /** Two strings with the same characters and the same first one agree on the rest. */
  lemma SameTail(a: string, b: string)
    requires a != [] && b != [] && a[0] == b[0] && multiset(a) == multiset(b)
    ensures multiset(a[1..]) == multiset(b[1..])
  {
    Split(a);
    Split(b);
    assert multiset(a[1..]) == multiset(a) - multiset{a[0]};
    assert multiset(b[1..]) == multiset(b) - multiset{b[0]};
  }

  /** Two words get the same key exactly when they are anagrams of each other. */
  lemma SameKey(a: string, b: string)
    ensures Key(a) == Key(b) <==> multiset(a) == multiset(b)
  {
    KeyShape(a);
    KeyShape(b);
    if multiset(a) == multiset(b) {
      OrderedUnique(Key(a), Key(b));
    }
  }

  /** The keys of `strs`, each once, in the order of their first occurrence. */
  ghost function FirstKeys(strs: seq<string>): (ks: seq<string>)
  {
    if strs == [] then []
    else
      var ks := FirstKeys(strs[..|strs| - 1]);
      var key := Key(strs[|strs| - 1]);
      if key in ks then ks else ks + [key]
  }

  /** The words of `strs` whose key is `key`, in input order. */
  ghost function Members(strs: seq<string>, key: string): seq<string>
  {
    if strs == [] then []
    else
      var rest := Members(strs[..|strs| - 1], key);
      if Key(strs[|strs| - 1]) == key then rest + [strs[|strs| - 1]] else rest
  }

  /** The members of each key of `ks`, in the order of `ks`. */
  ghost function GroupsFor(strs: seq<string>, ks: seq<string>): (gs: seq<seq<string>>)
    ensures |gs| == |ks|
  {
    if ks == [] then [] else GroupsFor(strs, ks[..|ks| - 1]) + [Members(strs, ks[|ks| - 1])]
  }

  /** The groups of `strs`: the members of each key, keys in order of first occurrence. */
  ghost function Groups(strs: seq<string>): seq<seq<string>>
  {
    GroupsFor(strs, FirstKeys(strs))
  }

  /** The `g`-th group holds the members of the `g`-th key. */
  lemma {:induction false} GroupAt(strs: seq<string>, ks: seq<string>, g: int)
    requires 0 <= g < |ks|
    ensures GroupsFor(strs, ks)[g] == Members(strs, ks[g])
  {
    if g < |ks| - 1 {
      GroupAt(strs, ks[..|ks| - 1], g);
    }
  }

  /** Taking in one more word changes the key order and the members only under the word's key. */
  lemma Push(strs: seq<string>, i: int)
    requires 0 <= i < |strs|
    ensures FirstKeys(strs[..i + 1]) == if Key(strs[i]) in FirstKeys(strs[..i]) then FirstKeys(strs[..i])
                                         else FirstKeys(strs[..i]) + [Key(strs[i])]
    ensures forall key :: Members(strs[..i + 1], key) == if Key(strs[i]) == key then Members(strs[..i], key) + [strs[i]]
                                                         else Members(strs[..i], key)
  {
    assert strs[..i + 1][..i] == strs[..i];
  }

  /** A key not yet in the key order has no members. */
  lemma NoMembers(strs: seq<string>, key: string)
    requires key !in FirstKeys(strs)
    ensures Members(strs, key) == []
  {
    if Members(strs, key) != [] {
      var w := Members(strs, key)[0];
      MembersCount(strs, key, w);
      FirstKeysShape(strs);
    }
  }

  /**
   * The loop state after `i` words: `order` lists their keys in order of
   * first occurrence, and `hashMap` holds exactly those keys, each with its
   * members so far.
   */
  ghost predicate Grouped(strs: seq<string>, i: int, hashMap: map<string, seq<string>>, order: seq<string>)
    requires 0 <= i <= |strs|
  {
    && order == FirstKeys(strs[..i])
    && (forall key :: key in hashMap <==> key in order)
    && (forall key :: key in hashMap ==> hashMap[key] == Members(strs[..i], key))
  }

  /** Taking in word `i`: it joins its key's entry, which is created and put last when new. */
  lemma Take(strs: seq<string>, i: int, hashMap: map<string, seq<string>>, order: seq<string>)
    requires 0 <= i < |strs| && Grouped(strs, i, hashMap, order)
    ensures Key(strs[i]) in hashMap ==>
              Grouped(strs, i + 1, hashMap[Key(strs[i]) := hashMap[Key(strs[i])] + [strs[i]]], order)
    ensures Key(strs[i]) !in hashMap ==>
              Grouped(strs, i + 1, hashMap[Key(strs[i]) := [strs[i]]], order + [Key(strs[i])])
  {
    Push(strs, i);
    if Key(strs[i]) !in hashMap {
      NoMembers(strs[..i], Key(strs[i]));
    }
  }

  /** After the last word, the entries read in key order are the groups. */
  lemma Done(strs: seq<string>, hashMap: map<string, seq<string>>, order: seq<string>)
    requires Grouped(strs, |strs|, hashMap, order)
    ensures |order| == |Groups(strs)|
    ensures forall g :: 0 <= g < |order| ==> order[g] in hashMap && hashMap[order[g]] == Groups(strs)[g]
  {
    assert strs[..|strs|] == strs;
    forall g | 0 <= g < |order|
      ensures hashMap[order[g]] == Groups(strs)[g]
    {
      GroupAt(strs, order, g);
    }
  }

  /**
   * `groupAnagrams`. `hashMap` and `order` together are the source's `Map`:
   * its entries and the order in which their keys were first set.
   */
  method GroupAnagrams(strs: seq<string>) returns (groups: seq<seq<string>>)
    ensures groups == Groups(strs)
  {
    var hashMap: map<string, seq<string>> := map[];
    var order: seq<string> := [];
    for i := 0 to |strs|
      invariant Grouped(strs, i, hashMap, order)
    {
      var word := strs[i];
      var sortedWord := Key(word);
      Take(strs, i, hashMap, order);
      if sortedWord in hashMap {
        var arrayValue := hashMap[sortedWord];
        hashMap := hashMap[sortedWord := arrayValue + [word]];
      } else {
        hashMap := hashMap[sortedWord := [word]];
        order := order + [sortedWord];
      }
    }
    Done(strs, hashMap, order);
    groups := seq(|order|, g requires 0 <= g < |order| => hashMap[order[g]]);
  }

  /** Membership in a key's group: exactly the words with that key, each as often as in the input. */
  lemma {:induction false} MembersCount(strs: seq<string>, key: string, w: string)
    ensures multiset(Members(strs, key))[w] == if Key(w) == key then multiset(strs)[w] else 0
  {
    if strs != [] {
      var init := strs[..|strs| - 1];
      MembersCount(init, key, w);
      assert strs == init + [strs[|strs| - 1]];
    }
  }

  /** Every key occurs once in the key order, and exactly the keys of the input occur. */
  lemma {:induction false} FirstKeysShape(strs: seq<string>)
    ensures Distinct(FirstKeys(strs))
    ensures forall key :: key in FirstKeys(strs) <==> exists w :: w in strs && Key(w) == key
  {
    if strs != [] {
      var init := strs[..|strs| - 1];
      var last := strs[|strs| - 1];
      FirstKeysShape(init);
      assert strs == init + [last];
      var ks := FirstKeys(init);
      if Key(last) !in ks {
        forall a, b | 0 <= a < b < |ks| + 1
          ensures (ks + [Key(last)])[a] != (ks + [Key(last)])[b]
        {
          if b == |ks| {
            assert ks[a] in ks;
          }
        }
      }
      forall key | key in FirstKeys(strs)
        ensures exists w :: w in strs && Key(w) == key
      {
        if key == Key(last) {
          assert last in strs;
        } else {
          var w :| w in init && Key(w) == key;
          assert w in strs;
        }
      }
      forall key | exists w :: w in strs && Key(w) == key
        ensures key in FirstKeys(strs)
      {
        var w :| w in strs && Key(w) == key;
        if w != last {
          assert w in init;
        }
      }
    }
  }

  /** The sum of the multisets of a sequence of groups. */
  ghost function Pooled(groups: seq<seq<string>>): multiset<string>
  {
    if groups == [] then multiset{} else Pooled(groups[..|groups| - 1]) + multiset(groups[|groups| - 1])
  }

  /** Pooling the members of distinct keys counts each word once if its key is among them. */
  lemma {:induction false} PooledMembers(strs: seq<string>, ks: seq<string>, w: string)
    requires Distinct(ks)
    ensures Pooled(GroupsFor(strs, ks))[w] == if Key(w) in ks then multiset(strs)[w] else 0
  {
    if ks != [] {
      var init := ks[..|ks| - 1];
      var key := ks[|ks| - 1];
      assert Distinct(init) by {
        forall a, b | 0 <= a < b < |init|
          ensures init[a] != init[b]
        {
          assert init[a] == ks[a] && init[b] == ks[b];
        }
      }
      PooledMembers(strs, init, w);
      var gs := GroupsFor(strs, ks);
      assert gs[..|gs| - 1] == GroupsFor(strs, init);
      MembersCount(strs, key, w);
      assert key !in init;
      assert ks == init + [key];
    }
  }

  /**
   * The groups partition the input: each word occurs in the groups as often
   * as in the input, and it lies in the group of its own key.
   */
  lemma Partition(strs: seq<string>)
    ensures Pooled(Groups(strs)) == multiset(strs)
    ensures forall g, w :: 0 <= g < |Groups(strs)| && w in Groups(strs)[g] ==> Key(w) == FirstKeys(strs)[g]
  {
    var ks := FirstKeys(strs);
    FirstKeysShape(strs);
    forall w
      ensures Pooled(Groups(strs))[w] == multiset(strs)[w]
    {
      PooledMembers(strs, ks, w);
      if w in strs {
        assert Key(w) in ks;
      }
    }
    forall g, w | 0 <= g < |ks| && w in Groups(strs)[g]
      ensures Key(w) == ks[g]
    {
      GroupAt(strs, ks, g);
      MembersCount(strs, ks[g], w);
    }
  }

  /** A word of the `g`-th group has the `g`-th key. */
  lemma KeyOfMember(strs: seq<string>, g: int, w: string)
    requires 0 <= g < |Groups(strs)| && w in Groups(strs)[g]
    ensures Key(w) == FirstKeys(strs)[g]
  {
    GroupAt(strs, FirstKeys(strs), g);
    MembersCount(strs, FirstKeys(strs)[g], w);
    assert w in multiset(Members(strs, FirstKeys(strs)[g]));
  }

  /** Two input words share a group exactly when they are anagrams of each other. */
  lemma SameGroup(strs: seq<string>, g: int, h: int, a: string, b: string)
    requires 0 <= g < |Groups(strs)| && 0 <= h < |Groups(strs)|
    requires a in Groups(strs)[g] && b in Groups(strs)[h]
    ensures g == h <==> multiset(a) == multiset(b)
  {
    KeyOfMember(strs, g, a);
    KeyOfMember(strs, h, b);
    FirstKeysShape(strs);
    SameKey(a, b);
  }

  /** The file's last call: ["", "", ""] forms a single group. */
  lemma EmptyWords()
    ensures Groups(["", "", ""]) == [["", "", ""]]
  {
    var strs := ["", "", ""];
    assert Key("") == "";
    assert strs[..2][..1] == [""] && strs[..2] == ["", ""] && strs[..1] == [""];
    assert FirstKeys([""]) == [""];
    assert FirstKeys(strs) == [""];
    assert Members(strs, "") == ["", "", ""];
  }
}
