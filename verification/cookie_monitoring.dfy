/** `CookieMonitoringMiddleware.process_request`: the cookie-size figures it
    derives from a request and the custom attributes it reports. */
module CookieMonitoring {
  import opened Wrappers
  import opened OrderedDict
  import opened CookieGroups

  /** Python's `max` raises `ValueError` on an empty dict; these are the two
      dicts the middleware takes a maximum of. */
  datatype MeasureError =
    | NoCookies         // `cookie_names_to_size` is empty
    | NoGroupedCookies  // `cookie_groups_to_size` is empty

  /** The figures computed before any attribute is reported. */
  datatype Report = Report(
    cookieSizes: seq<Item<string>>,
    groupSizes: seq<Item<string>>,
    maxName: string,
    maxSize: nat,
    maxGroupName: string,
    maxGroupSize: nat,
    totalSize: nat)

  /** The largest cookie, the largest group (a single cookie that is
      strictly larger than every group counting as a group of one) and the
      total, or the error `max` raises. */
  function Measure(cookies: seq<Cookie>): (r: Result<Report, MeasureError>)
    ensures r == Failure(NoCookies) <==> |cookies| == 0
    ensures r == Failure(NoGroupedCookies) <==> |cookies| > 0 && !HasGroupedCookie(cookies)
  {
    var sizes := CookieSizes(cookies);
    var groups := GroupSizes(cookies);
    if |sizes| == 0 then Failure(NoCookies)
    else
      var largest := sizes[ArgMax(sizes)];
      GroupSizesNonEmptyIff(cookies);
      if |groups| == 0 then Failure(NoGroupedCookies)
      else
        var largestGroup := groups[ArgMax(groups)];
        var overall := if largestGroup.size < largest.size then largest else largestGroup;
        Success(Report(sizes, groups, largest.key, largest.size, overall.key, overall.size, Sum(sizes)))
  }

  /** Unfolds the fields of a successful report once, for the lemmas below. */
  lemma MeasureFields(cookies: seq<Cookie>)
    requires |cookies| > 0 && HasGroupedCookie(cookies)
    ensures Measure(cookies).Success?
    ensures var r := Measure(cookies).value;
      var sizes := CookieSizes(cookies);
      var groups := GroupSizes(cookies);
      && |sizes| > 0 && |groups| > 0
      && var m := sizes[ArgMax(sizes)];
      && var top := groups[ArgMax(groups)];
      && r.cookieSizes == sizes
      && r.groupSizes == groups
      && r.maxName == m.key
      && r.maxSize == m.size
      && r.maxGroupName == (if top.size < m.size then m.key else top.key)
      && r.maxGroupSize == (if top.size < m.size then m.size else top.size)
      && r.totalSize == Sum(sizes)
  {
    GroupSizesNonEmptyIff(cookies);
  }

  /** The reported largest cookie is a cookie of the request with the
      reported size; no cookie is larger, and every earlier one is strictly
      smaller, so ties go to the first cookie. */
  lemma LargestCookie(cookies: seq<Cookie>)
    requires DistinctNames(cookies)
    requires |cookies| > 0 && HasGroupedCookie(cookies)
    ensures var r := Measure(cookies).value;
      && (forall i :: 0 <= i < |cookies| ==> Size(cookies[i]) <= r.maxSize)
      && exists i :: && 0 <= i < |cookies|
                     && cookies[i].name == r.maxName
                     && Size(cookies[i]) == r.maxSize
                     && forall j :: 0 <= j < i ==> Size(cookies[j]) < r.maxSize
  {
    MeasureFields(cookies);
    var r := Measure(cookies).value;
    var sizes := CookieSizes(cookies);
    CookieSizesInOrder(cookies);
    var i := ArgMax(sizes);
    assert sizes[i] == Item(cookies[i].name, Size(cookies[i]));
    forall j | 0 <= j < |cookies| ensures Size(cookies[j]) <= r.maxSize {
      assert sizes[j].size == Size(cookies[j]);
    }
    forall j | 0 <= j < i ensures Size(cookies[j]) < r.maxSize {
      assert sizes[j].size == Size(cookies[j]);
    }
  }

  /** The reported largest group is at least the largest cookie and every
      group. It is the first largest group when that group is at least as
      large as the largest cookie (the group wins a tie), and otherwise the
      largest cookie taken as a group of one. */
  lemma LargestGroup(cookies: seq<Cookie>)
    requires |cookies| > 0 && HasGroupedCookie(cookies)
    ensures var r := Measure(cookies).value;
      && r.maxGroupSize >= r.maxSize
      && (forall g :: TotalSize(Members(cookies, g)) <= r.maxGroupSize)
      && (|| (exists i :: && FirstLargest(r.groupSizes, i)
                          && r.groupSizes[i] == Item(r.maxGroupName, r.maxGroupSize)
                          && r.maxSize <= r.maxGroupSize)
          || (&& (forall i :: 0 <= i < |r.groupSizes| ==> r.groupSizes[i].size < r.maxSize)
              && r.maxGroupName == r.maxName
              && r.maxGroupSize == r.maxSize))
  {
    MeasureFields(cookies);
    var groups := GroupSizes(cookies);
    assert FirstLargest(groups, ArgMax(groups));
    forall g ensures TotalSize(Members(cookies, g)) <= groups[ArgMax(groups)].size {
      MemberSumAtMostLargestGroup(cookies, g);
    }
  }

  /** The reported total is the sum of all cookie sizes, so no cookie
      exceeds it. */
  lemma TotalIsSumOfSizes(cookies: seq<Cookie>)
    requires DistinctNames(cookies)
    requires |cookies| > 0 && HasGroupedCookie(cookies)
    ensures var r := Measure(cookies).value;
      && r.totalSize == TotalSize(cookies)
      && forall i :: 0 <= i < |cookies| ==> Size(cookies[i]) <= r.totalSize
  {
    MeasureFields(cookies);
    CookieSizesSumToTotal(cookies);
    forall i | 0 <= i < |cookies| ensures Size(cookies[i]) <= TotalSize(cookies) {
      CookieAtMostTotal(cookies, i);
    }
  }

  /** No group, not all groups together and not the reported largest group
      exceed the reported total. */
  lemma GroupsWithinTotal(cookies: seq<Cookie>)
    requires DistinctNames(cookies)
    requires |cookies| > 0 && HasGroupedCookie(cookies)
    ensures var r := Measure(cookies).value;
      && (forall g :: TotalSize(Members(cookies, g)) <= r.totalSize)
      && Sum(r.groupSizes) <= r.totalSize
      && r.maxGroupSize <= r.totalSize
  {
    MeasureFields(cookies);
    var sizes := CookieSizes(cookies);
    var groups := GroupSizes(cookies);
    CookieSizesSumToTotal(cookies);
    GroupSizesAtMostTotal(cookies);
    forall g ensures TotalSize(Members(cookies, g)) <= TotalSize(cookies) {
      MemberSumAtMostTotal(cookies, g);
    }
    SizeAtMostSum(sizes, ArgMax(sizes));
    SizeAtMostSum(groups, ArgMax(groups));
  }

  /** A custom attribute handed to the monitoring service. */
  datatype AttributeValue = Count(n: nat) | Text(s: string)
  datatype Attribute = Attribute(name: string, value: AttributeValue)

  /** What one request leaves behind: nothing when capture is off, the
      `ValueError` of an empty `max`, or the attributes in the order they
      are set. */
  datatype Outcome = NotCaptured | Raised(error: MeasureError) | Emitted(attributes: seq<Attribute>)

  function GroupAttributeName(g: string): string {
    "cookies." + g + ".group.size"
  }

  /** One size attribute per group, in the group dict's order; individual
      cookies get none. */
  function GroupAttributes(groups: seq<Item<string>>): seq<Attribute> {
    seq(|groups|, i requires 0 <= i < |groups| =>
      Attribute(GroupAttributeName(groups[i].key), Count(groups[i].size)))
  }

  function ReportAttributes(r: Report): seq<Attribute> {
    GroupAttributes(r.groupSizes) + [
      Attribute("cookies.max.name", Text(r.maxName)),
      Attribute("cookies.max.size", Count(r.maxSize)),
      Attribute("cookies.max.group.name", Text(r.maxGroupName)),
      Attribute("cookies.max.group.size", Count(r.maxGroupSize)),
      Attribute("cookies_total_size", Count(r.totalSize))]
  }

  /** `process_request`, with the `capture_cookie_sizes` flag as an input.
      It emits nothing unless the flag is on, and it raises exactly when the
      request has no cookie or no cookie that belongs to a group. */
  function ProcessRequest(captureEnabled: bool, cookies: seq<Cookie>): (o: Outcome)
    ensures o == NotCaptured <==> !captureEnabled
    ensures o.Raised? <==> captureEnabled && (|cookies| == 0 || !HasGroupedCookie(cookies))
  {
    if !captureEnabled then NotCaptured
    else
      match Measure(cookies)
      case Failure(e) => Raised(e)
      case Success(r) => Emitted(ReportAttributes(r))
  }

  /** A measured request emits the attributes of its report. */
  lemma EmitsReport(captureEnabled: bool, cookies: seq<Cookie>)
    requires captureEnabled && |cookies| > 0 && HasGroupedCookie(cookies)
    ensures Measure(cookies).Success?
    ensures Measure(cookies).value.groupSizes == GroupSizes(cookies)
    ensures ProcessRequest(captureEnabled, cookies) == Emitted(ReportAttributes(Measure(cookies).value))
  {
  }

  /** The `i`-th attribute a measured request emits names the `i`-th group
      of the group dict, a group that has members, and carries the sum of
      their sizes. */
  lemma EmittedGroupAttribute(captureEnabled: bool, cookies: seq<Cookie>, i: nat)
    requires captureEnabled && |cookies| > 0 && HasGroupedCookie(cookies)
    requires i < |GroupSizes(cookies)|
    ensures var attrs := ProcessRequest(captureEnabled, cookies).attributes;
      var g := Measure(cookies).value.groupSizes[i].key;
      && |Members(cookies, g)| > 0
      && |attrs| == |GroupSizes(cookies)| + 5
      && i < |attrs| - 5
      && attrs[i] == Attribute(GroupAttributeName(g), Count(TotalSize(Members(cookies, g))))
  {
    EmitsReport(captureEnabled, cookies);
    var groups := GroupSizes(cookies);
    var g := groups[i].key;
    GroupSizesDistinct(cookies);
    GroupSizeIsMemberSum(cookies, g);
    GroupKeysHaveMembers(cookies, g);
    KeysHoldExactlyItemKeys(groups, g);
    GetAt(groups, i);
    assert ReportAttributes(Measure(cookies).value)[i] == GroupAttributes(groups)[i];
  }

  /** Every group that has a member gets its size attribute. */
  lemma EveryGroupEmitted(captureEnabled: bool, cookies: seq<Cookie>, g: string)
    requires captureEnabled && |cookies| > 0 && HasGroupedCookie(cookies)
    requires |Members(cookies, g)| > 0
    ensures var attrs := ProcessRequest(captureEnabled, cookies).attributes;
      Attribute(GroupAttributeName(g), Count(TotalSize(Members(cookies, g)))) in attrs[..|attrs| - 5]
  {
    EmitsReport(captureEnabled, cookies);
    var groups := GroupSizes(cookies);
    var attrs := ReportAttributes(Measure(cookies).value);
    GroupSizeIsMemberSum(cookies, g);
    GroupKeysHaveMembers(cookies, g);
    GetFindsItem(groups, g);
    var i :| 0 <= i < |groups| && groups[i] == Item(g, Get(groups, g));
    assert attrs[..|groups|] == GroupAttributes(groups);
    assert GroupAttributes(groups)[i] == Attribute(GroupAttributeName(g), Count(Get(groups, g)));
  }

  /** A measured request emits exactly one size attribute per group, in the
      group dict's order, and then the five summary attributes, the last
      being the total of all cookie sizes; no cookie gets an attribute of
      its own. */
  lemma EmittedSummary(captureEnabled: bool, cookies: seq<Cookie>)
    requires DistinctNames(cookies)
    requires captureEnabled && |cookies| > 0 && HasGroupedCookie(cookies)
    ensures var attrs := ProcessRequest(captureEnabled, cookies).attributes;
      var r := Measure(cookies).value;
      && |attrs| == |GroupSizes(cookies)| + 5
      && attrs[..|attrs| - 5] == GroupAttributes(GroupSizes(cookies))
      && attrs[|attrs| - 5..] == [
           Attribute("cookies.max.name", Text(r.maxName)),
           Attribute("cookies.max.size", Count(r.maxSize)),
           Attribute("cookies.max.group.name", Text(r.maxGroupName)),
           Attribute("cookies.max.group.size", Count(r.maxGroupSize)),
           Attribute("cookies_total_size", Count(TotalSize(cookies)))]
  {
    EmitsReport(captureEnabled, cookies);
    TotalIsSumOfSizes(cookies);
  }

  /** Django's own `sessionid` and `csrftoken` cookies hold no separator,
      so a request carrying only those makes the second `max` raise. */
  lemma UngroupedCookiesRaise(captureEnabled: bool, session: string, csrf: string)
    requires captureEnabled
    ensures ProcessRequest(captureEnabled, [Cookie("sessionid", session), Cookie("csrftoken", csrf)])
            == Raised(NoGroupedCookies)
  {
    var cookies := [Cookie("sessionid", session), Cookie("csrftoken", csrf)];
    forall k, j | 0 <= k < |cookies| && 0 <= j < |cookies[k].name|
      ensures !IsSeparator(cookies[k].name[j])
    {
      assert j in {0, 1, 2, 3, 4, 5, 6, 7, 8};
    }
    assert !HasGroupedCookie(cookies);
  }
}
