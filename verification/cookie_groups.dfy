/** Per-cookie sizes, prefix groups and their sizes, as the cookie
    monitoring middleware derives them from a request's cookies. */
module CookieGroups {
  import opened Wrappers
  import opened OrderedDict

  /** One entry of `request.COOKIES`. */
  datatype Cookie = Cookie(name: string, value: string)

  /** A cookie's size is the length of its value, counted in characters. */
  function Size(c: Cookie): nat {
    |c.value|
  }

  /** `request.COOKIES` is a dict: no name occurs twice. */
  ghost predicate DistinctNames(cookies: seq<Cookie>) {
    forall i, j :: 0 <= i < j < |cookies| ==> cookies[i].name != cookies[j].name
  }

  /** The characters the pattern `[._]` matches. */
  predicate IsSeparator(ch: char) {
    ch == '.' || ch == '_'
  }

  /** `re.split('[._]', name, 1)[0]`: the text before the first separator,
      or the whole name when it holds none. */
  function Prefix(name: string): (p: string)
    ensures p <= name
    ensures forall i :: 0 <= i < |p| ==> !IsSeparator(p[i])
    ensures |p| < |name| ==> IsSeparator(name[|p|])
  {
    if |name| == 0 || IsSeparator(name[0]) then ""
    else [name[0]] + Prefix(name[1..])
  }

  /** The three properties of `Prefix` pin it down: any prefix of the name
      free of separators and followed by a separator or the end of the name
      is the split's first part. */
  lemma PrefixIsDetermined(name: string, p: string)
    requires p <= name
    requires forall i :: 0 <= i < |p| ==> !IsSeparator(p[i])
    requires |p| < |name| ==> IsSeparator(name[|p|])
    ensures p == Prefix(name)
  {
  }

  /** The group a cookie name belongs to: its prefix, provided that prefix
      is neither empty nor the whole name. */
  function GroupOf(name: string): (g: Option<string>)
    ensures g.Some? <==>
      |name| > 0 && !IsSeparator(name[0]) && exists i :: 0 <= i < |name| && IsSeparator(name[i])
    ensures g.Some? ==>
      && 0 < |g.value| < |name|
      && g.value <= name
      && IsSeparator(name[|g.value|])
      && forall i :: 0 <= i < |g.value| ==> !IsSeparator(g.value[i])
  {
    var p := Prefix(name);
    if p != "" && p != name then Some(p) else None
  }

  /** The sum of all cookie sizes. */
  function TotalSize(cookies: seq<Cookie>): nat {
    if |cookies| == 0 then 0
    else TotalSize(cookies[..|cookies| - 1]) + Size(cookies[|cookies| - 1])
  }

  /** The cookies whose group is `g`, in iteration order. */
  function Members(cookies: seq<Cookie>, g: string): seq<Cookie> {
    if |cookies| == 0 then []
    else
      var last := cookies[|cookies| - 1];
      Members(cookies[..|cookies| - 1], g) + (if GroupOf(last.name) == Some(g) then [last] else [])
  }

  /** The cookies that belong to some group, in iteration order. */
  function Grouped(cookies: seq<Cookie>): seq<Cookie> {
    if |cookies| == 0 then []
    else
      var last := cookies[|cookies| - 1];
      Grouped(cookies[..|cookies| - 1]) + (if GroupOf(last.name).Some? then [last] else [])
  }

  /** `Members` keeps exactly the cookies of group `g`. */
  lemma {:induction false} MembersAreGroupCookies(cookies: seq<Cookie>, g: string, c: Cookie)
    ensures c in Members(cookies, g) <==> c in cookies && GroupOf(c.name) == Some(g)
  {
    if |cookies| > 0 {
      var init := cookies[..|cookies| - 1];
      assert cookies == init + [cookies[|cookies| - 1]];
      MembersAreGroupCookies(init, g, c);
    }
  }

  /** Some cookie belongs to a group. */
  ghost predicate HasGroupedCookie(cookies: seq<Cookie>) {
    exists i :: 0 <= i < |cookies| && GroupOf(cookies[i].name).Some?
  }

  /** `cookie_names_to_size`: each cookie's name mapped to its size, filled
      in iteration order. */
  function CookieSizes(cookies: seq<Cookie>): (d: seq<Item<string>>)
    ensures |cookies| > 0 <==> |d| > 0
  {
    if |cookies| == 0 then []
    else
      var last := cookies[|cookies| - 1];
      Put(CookieSizes(cookies[..|cookies| - 1]), last.name, Size(last))
  }

  /** With distinct names, `cookie_names_to_size` lists every cookie once,
      in iteration order, with its size. */
  lemma {:induction false} CookieSizesInOrder(cookies: seq<Cookie>)
    requires DistinctNames(cookies)
    ensures |CookieSizes(cookies)| == |cookies|
    ensures forall i :: 0 <= i < |cookies| ==> CookieSizes(cookies)[i] == Item(cookies[i].name, Size(cookies[i]))
  {
    if |cookies| > 0 {
      var init := cookies[..|cookies| - 1];
      var last := cookies[|cookies| - 1];
      var d := CookieSizes(init);
      assert DistinctNames(init);
      CookieSizesInOrder(init);
      KeysHoldExactlyItemKeys(d, last.name);
      assert last.name !in Keys(d);
      assert CookieSizes(cookies) == d + [Item(last.name, Size(last))];
    }
  }

  /** `cookie_groups_to_size`: each group mapped to the running sum of its
      members' sizes, a group entering at its first member. */
  function GroupSizes(cookies: seq<Cookie>): seq<Item<string>> {
    if |cookies| == 0 then []
    else
      var d := GroupSizes(cookies[..|cookies| - 1]);
      var last := cookies[|cookies| - 1];
      match GroupOf(last.name)
      case None => d
      case Some(g) => Put(d, g, Get(d, g) + Size(last))
  }

  lemma TotalSizeAppend(cookies: seq<Cookie>, c: Cookie)
    ensures TotalSize(cookies + [c]) == TotalSize(cookies) + Size(c)
  {
  }

  /** No dict key is repeated in `cookie_groups_to_size`. */
  lemma {:induction false} GroupSizesDistinct(cookies: seq<Cookie>)
    ensures Distinct(GroupSizes(cookies))
  {
    if |cookies| > 0 {
      var d := GroupSizes(cookies[..|cookies| - 1]);
      GroupSizesDistinct(cookies[..|cookies| - 1]);
      var last := cookies[|cookies| - 1];
      if GroupOf(last.name).Some? {
        var g := GroupOf(last.name).value;
        PutKeepsDistinct(d, g, Get(d, g) + Size(last));
      }
    }
  }

  /** One iteration of the loop that fills `cookie_groups_to_size`. */
  lemma GroupSizesStep(cookies: seq<Cookie>)
    requires |cookies| > 0
    ensures var init := cookies[..|cookies| - 1];
      var last := cookies[|cookies| - 1];
      GroupSizes(cookies) == match GroupOf(last.name)
        case None => GroupSizes(init)
        case Some(h) => Put(GroupSizes(init), h, Get(GroupSizes(init), h) + Size(last))
  {
  }

  /** Adding a cookie to the request adds its size to its own group only. */
  lemma MembersStep(cookies: seq<Cookie>, g: string)
    requires |cookies| > 0
    ensures var init := cookies[..|cookies| - 1];
      var last := cookies[|cookies| - 1];
      && |Members(cookies, g)| == |Members(init, g)| + (if GroupOf(last.name) == Some(g) then 1 else 0)
      && TotalSize(Members(cookies, g))
         == TotalSize(Members(init, g)) + (if GroupOf(last.name) == Some(g) then Size(last) else 0)
  {
    var init := cookies[..|cookies| - 1];
    var last := cookies[|cookies| - 1];
    if GroupOf(last.name) == Some(g) {
      TotalSizeAppend(Members(init, g), last);
    } else {
      assert Members(cookies, g) == Members(init, g);
    }
  }

  /** The size `cookie_groups_to_size` holds for a group is the sum of the
      sizes of exactly the cookies in that group. */
  lemma {:induction false} GroupSizeIsMemberSum(cookies: seq<Cookie>, g: string)
    ensures Get(GroupSizes(cookies), g) == TotalSize(Members(cookies, g))
  {
    if |cookies| > 0 {
      var init := cookies[..|cookies| - 1];
      var last := cookies[|cookies| - 1];
      var d := GroupSizes(init);
      GroupSizeIsMemberSum(init, g);
      GroupSizesStep(cookies);
      MembersStep(cookies, g);
      match GroupOf(last.name)
      case None =>
        assert Get(GroupSizes(cookies), g) == Get(d, g);
      case Some(h) =>
        if h != g {
          PutKeepsOthers(d, h, Get(d, h) + Size(last), g);
          assert Get(GroupSizes(cookies), g) == Get(d, g);
        } else {
          assert Get(GroupSizes(cookies), g) == Get(d, g) + Size(last);
        }
    }
  }

  /** A name is a key of `cookie_groups_to_size` exactly when some cookie
      belongs to that group. */
  lemma {:induction false} GroupKeysHaveMembers(cookies: seq<Cookie>, g: string)
    ensures g in Keys(GroupSizes(cookies)) <==> |Members(cookies, g)| > 0
  {
    if |cookies| > 0 {
      GroupKeysHaveMembers(cookies[..|cookies| - 1], g);
      GroupSizesStep(cookies);
      MembersStep(cookies, g);
    }
  }

  /** Every grouped cookie's size is counted in exactly one group, so the
      group sizes add up to the size of the grouped cookies. */
  lemma {:induction false} GroupSizesSumToGroupedTotal(cookies: seq<Cookie>)
    ensures Sum(GroupSizes(cookies)) == TotalSize(Grouped(cookies))
  {
    if |cookies| > 0 {
      var init := cookies[..|cookies| - 1];
      var last := cookies[|cookies| - 1];
      var d := GroupSizes(init);
      GroupSizesSumToGroupedTotal(init);
      match GroupOf(last.name)
      case None =>
        assert Grouped(cookies) == Grouped(init);
      case Some(g) =>
        PutSum(d, g, Get(d, g) + Size(last));
        TotalSizeAppend(Grouped(init), last);
    }
  }

  /** The grouped cookies are among all cookies, so their size is at most
      the total. */
  lemma {:induction false} GroupedAtMostTotal(cookies: seq<Cookie>)
    ensures TotalSize(Grouped(cookies)) <= TotalSize(cookies)
  {
    if |cookies| > 0 {
      var init := cookies[..|cookies| - 1];
      var last := cookies[|cookies| - 1];
      GroupedAtMostTotal(init);
      if GroupOf(last.name).Some? {
        TotalSizeAppend(Grouped(init), last);
      } else {
        assert Grouped(cookies) == Grouped(init);
      }
    }
  }

  /** No cookie is larger than all cookies together. */
  lemma {:induction false} CookieAtMostTotal(cookies: seq<Cookie>, i: nat)
    requires i < |cookies|
    ensures Size(cookies[i]) <= TotalSize(cookies)
  {
    if i < |cookies| - 1 {
      CookieAtMostTotal(cookies[..|cookies| - 1], i);
    }
  }

  /** `sum(cookie_names_to_size.values())` is the total cookie size. */
  lemma {:induction false} CookieSizesSumToTotal(cookies: seq<Cookie>)
    requires DistinctNames(cookies)
    ensures Sum(CookieSizes(cookies)) == TotalSize(cookies)
  {
    if |cookies| > 0 {
      var init := cookies[..|cookies| - 1];
      var last := cookies[|cookies| - 1];
      var d := CookieSizes(init);
      assert DistinctNames(init);
      CookieSizesSumToTotal(init);
      CookieSizesInOrder(init);
      KeysHoldExactlyItemKeys(d, last.name);
      assert last.name !in Keys(d);
      PutSum(d, last.name, Size(last));
    }
  }

  /** `cookie_groups_to_size` is non-empty exactly when some cookie belongs
      to a group. */
  lemma GroupSizesNonEmptyIff(cookies: seq<Cookie>)
    ensures |GroupSizes(cookies)| > 0 <==> HasGroupedCookie(cookies)
  {
  }

  /** A group's cookies never weigh more than all the cookies together. */
  lemma MemberSumAtMostTotal(cookies: seq<Cookie>, g: string)
    ensures TotalSize(Members(cookies, g)) <= TotalSize(cookies)
  {
    GroupSizeIsMemberSum(cookies, g);
    GroupSizesAtMostTotal(cookies);
  }

  /** No group outweighs the first largest entry of the group table. */
  lemma MemberSumAtMostLargestGroup(cookies: seq<Cookie>, g: string)
    requires |GroupSizes(cookies)| > 0
    ensures TotalSize(Members(cookies, g)) <= GroupSizes(cookies)[ArgMax(GroupSizes(cookies))].size
  {
    var groups := GroupSizes(cookies);
    GroupSizeIsMemberSum(cookies, g);
    if g in Keys(groups) {
      GetFindsItem(groups, g);
      var i :| 0 <= i < |groups| && groups[i] == Item(g, Get(groups, g));
    }
  }

  /** Every group, and all groups together, are at most the total size. */
  lemma GroupSizesAtMostTotal(cookies: seq<Cookie>)
    ensures Sum(GroupSizes(cookies)) <= TotalSize(cookies)
    ensures forall g :: Get(GroupSizes(cookies), g) <= TotalSize(cookies)
  {
    GroupSizesSumToGroupedTotal(cookies);
    GroupedAtMostTotal(cookies);
    forall g ensures Get(GroupSizes(cookies), g) <= TotalSize(cookies) {
      GetAtMostSum(GroupSizes(cookies), g);
    }
  }

  /** Some cookie of group `g` comes before every cookie of group `h`: `g`
      got its first member earlier. */
  ghost predicate Precedes(cookies: seq<Cookie>, g: string, h: string) {
    exists a :: && 0 <= a < |cookies|
                && GroupOf(cookies[a].name) == Some(g)
                && forall b :: 0 <= b < |cookies| && GroupOf(cookies[b].name) == Some(h) ==> a < b
  }

  lemma PrecedesExtend(cookies: seq<Cookie>, g: string, h: string)
    requires |cookies| > 0
    requires Precedes(cookies[..|cookies| - 1], g, h)
    ensures Precedes(cookies, g, h)
  {
    var init := cookies[..|cookies| - 1];
    var a :| && 0 <= a < |init|
             && GroupOf(init[a].name) == Some(g)
             && forall b :: 0 <= b < |init| && GroupOf(init[b].name) == Some(h) ==> a < b;
    forall b | 0 <= b < |cookies| && GroupOf(cookies[b].name) == Some(h) ensures a < b {
      if b < |init| {
        assert cookies[b] == init[b];
      }
    }
    assert cookies[a] == init[a];
  }

  /** A group that is not yet a key when the last cookie arrives has that
      cookie as its only member, so every existing key precedes it. */
  lemma NewGroupLast(cookies: seq<Cookie>, g: string, h: string)
    requires |cookies| > 0
    requires GroupOf(cookies[|cookies| - 1].name) == Some(h)
    requires g in Keys(GroupSizes(cookies[..|cookies| - 1]))
    requires h !in Keys(GroupSizes(cookies[..|cookies| - 1]))
    ensures Precedes(cookies, g, h)
  {
    var init := cookies[..|cookies| - 1];
    GroupKeysHaveMembers(init, g);
    GroupKeysHaveMembers(init, h);
    var c := Members(init, g)[0];
    MembersAreGroupCookies(init, g, c);
    var a :| 0 <= a < |init| && init[a] == c;
    forall b | 0 <= b < |cookies| && GroupOf(cookies[b].name) == Some(h) ensures a < b {
      if b < |init| {
        assert cookies[b] == init[b];
        MembersAreGroupCookies(init, h, init[b]);
      }
    }
    assert cookies[a] == init[a];
  }

  /** The group dict lists the groups in the order of their first members
      among the request's cookies. */
  lemma {:induction false} GroupOrder(cookies: seq<Cookie>, i: nat, j: nat)
    requires i < j < |GroupSizes(cookies)|
    ensures Precedes(cookies, GroupSizes(cookies)[i].key, GroupSizes(cookies)[j].key)
  {
    var init := cookies[..|cookies| - 1];
    var last := cookies[|cookies| - 1];
    var d := GroupSizes(init);
    GroupSizesStep(cookies);
    match GroupOf(last.name)
    case None =>
      GroupOrder(init, i, j);
      PrecedesExtend(cookies, d[i].key, d[j].key);
    case Some(h) =>
      if h in Keys(d) || j < |d| {
        GroupOrder(init, i, j);
        PrecedesExtend(cookies, d[i].key, d[j].key);
      } else {
        KeysHoldExactlyItemKeys(d, d[i].key);
        NewGroupLast(cookies, d[i].key, h);
      }
  }
}
