# Cookie-size monitoring and trusted host selection

A Dafny model of two pieces of `openedx/core/lib/request_utils.py`:

- `CookieMonitoringMiddleware.process_request`, which measures the cookies
  of each request: the size of every cookie (the length of its value), the
  combined size of every cookie *group* (cookies sharing the text before the
  first `.` or `_` of their name), the largest cookie, the largest group (a
  single cookie counting as a group of one) and the total. When the
  `capture_cookie_sizes` flag is on it reports the group sizes, the largest
  cookie, the largest group and the total as custom monitoring attributes;
  the individual cookie sizes are only used to find the largest cookie and
  the total.
- `safe_get_host`, which decides whether the request's own host can be
  trusted or the configured site domain must be used instead.

## Layout

- `wrappers.dfy` — `Option` and `Result`.
- `ordered_dict.dfy` — module `OrderedDict`: a Python dict of sizes as the
  sequence of its items in insertion (= iteration) order; `d.get(k, 0)`,
  `d[k] = v`, `sum(d.values())` and `max(d, key=d.get)`.
- `cookie_groups.dfy` — module `CookieGroups`: cookies, the group prefix,
  `cookie_names_to_size`, `cookie_groups_to_size`, and reference definitions
  (`TotalSize`, `Members`, `Grouped`) that the dicts are proved against.
- `cookie_monitoring.dfy` — module `CookieMonitoring`: the measurement with
  its error outcome, the emitted attributes, and the properties of maxima
  and totals.
- `request_host.dfy` — module `RequestHost`: `safe_get_host`.

Modelling choices:

- `request.COOKIES` is a sequence of `(name, value)` pairs in iteration
  order; being a dict, its names are distinct (`DistinctNames`), which the
  lemmas relating the dicts back to the cookies assume.
- Python's `max` over a dict scans in iteration order and replaces its
  candidate only on a strictly larger key, so ties go to the earliest item;
  `ArgMax` does the same comparisons.
- `max` over an empty dict raises `ValueError`. Rather than forbidding that
  input, `Measure` returns `Failure(NoCookies)` (no cookie at all) or
  `Failure(NoGroupedCookies)` (no cookie name has a non-empty prefix before
  a separator), and its contract says exactly when each happens. A request
  carrying only Django's own `sessionid` and `csrftoken` cookies is such a
  case (`UngroupedCookiesRaise`).
- The `capture_cookie_sizes` waffle flag is a boolean input; the site
  configuration's `site_domain` is an optional string input; the request's
  host, `ALLOWED_HOSTS` and `SITE_NAME` are inputs.
- The group dict's order, which decides ties in the group `max` and the
  order of the group attributes, is the order of each group's first cookie
  (`GroupOrder`).
- `set_custom_attribute` calls become the sequence of attributes a request
  emits, in call order.
- The method's docstring lists a `cookies.<cookie_name>.size` attribute per
  cookie, but the code emits sizes only for groups (comment at line 155);
  the model follows the code, and `EmittedSummary` states that nothing but
  the group sizes precedes the five summary attributes.

## Model

| member | source | states |
|---|---|---|
| `OrderedDict.KeysHoldExactlyItemKeys` | openedx/core/lib/request_utils.py:135 | the dict's keys are exactly the keys of its items |
| `OrderedDict.Get` | openedx/core/lib/request_utils.py:141 | `d.get(k, 0)` is 0 for an absent key |
| `OrderedDict.GetFindsItem` | openedx/core/lib/request_utils.py:141 | for a present key, `d.get(k, 0)` is the value of an item carrying that key |
| `OrderedDict.GetAt` | openedx/core/lib/request_utils.py:141 | in a dict without repeated keys, looking up the key of the i-th item yields that item's value |
| `OrderedDict.Put` | openedx/core/lib/request_utils.py:135 | assigning `d[k] = v` adds `k` to the keys, appends a new key at the end, keeps the position of an existing key, and makes `d.get(k)` return `v` |
| `OrderedDict.PutKeepsOthers` | openedx/core/lib/request_utils.py:135 | assigning `d[k] = v` leaves the value of every other key unchanged |
| `OrderedDict.PutKeepsDistinct` | openedx/core/lib/request_utils.py:135 | assignment never duplicates a key |
| `OrderedDict.PutSum` | openedx/core/lib/request_utils.py:141 | assignment changes the sum of values by exactly the new value minus the old one |
| `OrderedDict.SizeAtMostSum` | openedx/core/lib/request_utils.py:167 | no value exceeds the sum of all values |
| `OrderedDict.GetAtMostSum` | openedx/core/lib/request_utils.py:167 | `d.get(k, 0)` never exceeds the sum of all values |
| `OrderedDict.ArgMax` | openedx/core/lib/request_utils.py:143 | `max` over a non-empty dict picks an item no smaller than any other, with every earlier item strictly smaller (ties go to the first) |
| `CookieGroups.Prefix` | openedx/core/lib/request_utils.py:138 | the split's first part is a prefix of the name holding no `.` or `_`, followed by a separator unless it is the whole name |
| `CookieGroups.PrefixIsDetermined` | openedx/core/lib/request_utils.py:138 | those three properties determine the first part uniquely |
| `CookieGroups.GroupOf` | openedx/core/lib/request_utils.py:138-139 | a name is grouped exactly when it is non-empty, does not start with a separator and contains one; its group is then a non-empty proper prefix ending just before the first separator |
| `CookieGroups.CookieSizes` | openedx/core/lib/request_utils.py:129-135 | `cookie_names_to_size` is empty exactly when there are no cookies |
| `CookieGroups.CookieSizesInOrder` | openedx/core/lib/request_utils.py:129-135 | for distinct cookie names, `cookie_names_to_size` holds one item per cookie, in request order, carrying its name and value length |
| `CookieGroups.MembersAreGroupCookies` | openedx/core/lib/request_utils.py:138-141 | the members of group `g` are exactly the cookies whose group is `g` |
| `CookieGroups.GroupOrder` | openedx/core/lib/request_utils.py:130-141 | `cookie_groups_to_size` lists its groups in the order of their first members: of any two keys, the earlier one has a cookie that comes before every cookie of the later one |
| `CookieGroups.GroupSizesDistinct` | openedx/core/lib/request_utils.py:130-141 | `cookie_groups_to_size` has no repeated group |
| `CookieGroups.GroupSizeIsMemberSum` | openedx/core/lib/request_utils.py:130-141 | a group's recorded size (0 when absent) is the sum of the sizes of exactly the cookies belonging to it |
| `CookieGroups.GroupKeysHaveMembers` | openedx/core/lib/request_utils.py:130-141 | a name is a key of `cookie_groups_to_size` exactly when some cookie belongs to that group |
| `CookieGroups.GroupSizesSumToGroupedTotal` | openedx/core/lib/request_utils.py:132-141 | the group sizes add up to the size of the grouped cookies: each cookie counts in at most one group |
| `CookieGroups.GroupedAtMostTotal` | openedx/core/lib/request_utils.py:132-141 | the grouped cookies together are at most all cookies together |
| `CookieGroups.CookieAtMostTotal` | openedx/core/lib/request_utils.py:134 | no cookie is larger than the total |
| `CookieGroups.CookieSizesSumToTotal` | openedx/core/lib/request_utils.py:167 | `sum(cookie_names_to_size.values())` is the sum of all value lengths |
| `CookieGroups.GroupSizesNonEmptyIff` | openedx/core/lib/request_utils.py:137-141 | the group dict is non-empty exactly when some cookie belongs to a group |
| `CookieGroups.MemberSumAtMostTotal` | openedx/core/lib/request_utils.py:132-141 | the cookies of one group together are at most all cookies together |
| `CookieGroups.MemberSumAtMostLargestGroup` | openedx/core/lib/request_utils.py:141-146 | no group's size exceeds the size of the group `max` selects |
| `CookieGroups.GroupSizesAtMostTotal` | openedx/core/lib/request_utils.py:141-167 | every group size, and the sum of all group sizes, is at most the total |
| `CookieMonitoring.Measure` | openedx/core/lib/request_utils.py:143-153 | the computation fails on the first `max` exactly when there are no cookies, and on the second exactly when there are cookies but none is grouped |
| `CookieMonitoring.LargestCookie` | openedx/core/lib/request_utils.py:143-144 | the reported largest cookie is a request cookie whose size is the reported size, no cookie is larger, and every earlier cookie is strictly smaller |
| `CookieMonitoring.LargestGroup` | openedx/core/lib/request_utils.py:146-153 | the reported largest group is at least every group and the largest cookie; it is the first largest group when that is at least the largest cookie (the group wins ties), and otherwise the largest cookie, strictly larger than every group |
| `CookieMonitoring.TotalIsSumOfSizes` | openedx/core/lib/request_utils.py:167 | the reported total is the sum of all cookie sizes and bounds every cookie |
| `CookieMonitoring.GroupsWithinTotal` | openedx/core/lib/request_utils.py:146-167 | every group, all groups together and the reported largest group are at most the reported total |
| `CookieMonitoring.ProcessRequest` | openedx/core/lib/request_utils.py:126-168 | nothing is computed or emitted exactly when the flag is off; with the flag on, the request raises exactly when it has no cookie or no grouped cookie |
| `CookieMonitoring.EmittedGroupAttribute` | openedx/core/lib/request_utils.py:155-160 | exactly one attribute per group precedes the five summary attributes, and the i-th emitted attribute is `cookies.<g>.group.size` for the i-th group `g`, a group with members, carrying the sum of their sizes |
| `CookieMonitoring.EveryGroupEmitted` | openedx/core/lib/request_utils.py:157-160 | every group that has a member gets its size attribute before the summary attributes |
| `CookieMonitoring.EmittedSummary` | openedx/core/lib/request_utils.py:155-168 | the emitted sequence is exactly one size attribute per group, in the group dict's order, with no per-cookie attribute, followed by the largest cookie's name and size, the largest group's name and size, and the total of all cookie sizes |
| `CookieMonitoring.UngroupedCookiesRaise` | openedx/core/lib/request_utils.py:146 | a request carrying only `sessionid` and `csrftoken` cookies raises at the group `max` |
| `RequestHost.SafeGetHost` | openedx/core/lib/request_utils.py:65-68 | the request's host is returned when `ALLOWED_HOSTS` is a list or tuple without `'*'`, and otherwise the configured `site_domain`, defaulting to `SITE_NAME` |
| `RequestHost.UntrustedHostIgnored` | openedx/core/lib/request_utils.py:56-68 | when `ALLOWED_HOSTS` is not a list or tuple without `'*'` (the test for being properly set), the answer does not depend on the host the request claims |
| `RequestHost.RequestHostMattersIffProperlySet` | openedx/core/lib/request_utils.py:60-68 | the answer depends on the request's host exactly when `ALLOWED_HOSTS` is a list or tuple without `'*'`, the test for being properly set |

## Left out

- `get_request_or_stub`: framework plumbing (thread-local current request, Django's request factory, URL parsing) with no logic of its own.
- `course_id_from_url`: its pattern comes from `COURSE_ID_PATTERN` in settings, which is not part of this model, and its result from the external course-key parser; only `None` short-circuits would remain.
- Logging (`log.debug`) and the monitoring service behind `set_custom_attribute`: the model records the attributes in call order but not how the service stores them. In particular a cookie group named `max` yields an attribute `cookies.max.group.size`, the same name as the largest-group attribute set after it; which value the service keeps is not modelled.
- The `capture_cookie_sizes` flag lookup and `configuration_helpers.get_value`: external services, taken as inputs.
- `request.get_host()`: Django's own validation of the host header against `ALLOWED_HOSTS` is not modelled; the host is an input.
- Sizes are character counts of the cookie values (`len` of a string); byte encodings are not modelled.
