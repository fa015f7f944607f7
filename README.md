# notify.py core, modelled in Dafny

`notify.py` picks the OpenStack instances to tell about an outage and
enriches each one with its project and that project's users. This project
models and proves three parts of it:

- **Host-range expansion** (`parse_dash`, `parse_nodes`). An expression
  such as `qh2-rcc[01-10,13]` or `a5, a6` becomes a set of host names.
  - `PyBuiltins` (builtins.dfy) models the Python built-ins the parser
    relies on: `str.isspace`, `str.split`, `int()` and `str()` on integers.
    `int()` strips a narrower whitespace set than `str.isspace`: the
    ASCII separators U+001C to U+001F are not skipped (`IsIntSpace`).
  - `HostRange` (host_range.dfy) models the parser as pure functions. The
    top-level split regex is `SplitTop`. The first-group search is
    `SearchGroup`. The parser itself is `ParseDash` and
    `Expand`/`Place`/`ExpandAll`.
  - `HostRangeProperties` (host_range_properties.dfy) proves what the
    parser does: splitting, grouping, ranges, and worked examples. The
    examples hold for any host prefix without `[`, `,` or a newline, not
    only for `qh2-rcc`.
- **Aggregate filters** (`get_hosts_by_aggregates`, `get_hosts_by_zones`).
  `Aggregates` (aggregates.dfy) models them as functions over the
  aggregate list that Nova has already returned.
- **Instance enrichment** (`populate_instances_details`). `Enrichment`
  (enrichment.dfy) models it imperatively:
  - Projects and instances are classes whose fields the loop updates.
  - The Keystone client is the class `IdentityService`. It holds fixed
    data and keeps a ghost log of the calls made to it.
  - The loop is `VisitAll`. It is proved against the specification
    function `Trace`, which lists the calls a complete run makes.
  - `EnrichmentProperties` (enrichment_properties.dfy) counts the calls
    in `Trace`. Each project is fetched, and its role assignments listed,
    once per distinct tenant. Each user is fetched once per distinct user.

Some behaviour of the code may surprise a reader of its examples
(`qh2-rcc[10-99]` in the help text, `qh2-rcc[01-10,13]` in the docstring
of `parse_nodes`). The model keeps it:

- An unclosed bracket (`qh2-rcc[10-`) raises no error. The regex does not
  match, so the text comes back unchanged as a single name.
  (`ExampleUnclosed`)
- A single value in brackets keeps its leading zeros: `[07]` gives `07`,
  not `7`. A range loses them: `[01-03]` gives `1`, `2`, `3`.
  (`ExampleRangeAndSingle`)
- Empty input raises no error either: `""` expands to `{""}`
  (`ExpandLiteral`).
- Only a bad range bound fails, with the `ValueError` that `int()` raises.
  That failure is `HostRange.Result.ValueError`, and it fails the whole
  expansion.

## Model

| member | source | states |
|---|---|---|
| PyBuiltins.Split | notify.py:97 | `split("-")` returns at least one field. No field holds the separator. There is exactly one field iff the text has no separator. |
| PyBuiltins.JoinSplit | notify.py:97 | Joining the fields of `split(sep)` with `sep` gives the text back, so splitting loses nothing. |
| PyBuiltins.SplitFirstTwo | notify.py:97-98 | For `lo-hi…`, the first two fields are `lo` and `hi` when neither holds a dash. |
| PyBuiltins.ParseSigned | notify.py:98 | On stripped text, `int()` succeeds iff the text is a signed numeral: an optional `+` or `-`, then digits with single underscores only between digits. A negative result comes only from a leading minus sign. |
| PyBuiltins.ParseInt | notify.py:98 | `int()` raises `ValueError` on text without a digit, and gives a negative number only for text holding a minus sign. Which text it accepts, and the value it gives, are stated by the lemmas in the next rows. |
| PyBuiltins.ParseIntAccepts | notify.py:98 | `int()` accepts text exactly when it is a signed numeral once the whitespace `int()` skips (`IsIntSpace`: `\t` to `\r`, space, and non-ASCII `str.isspace` characters) is stripped from both ends. |
| PyBuiltins.StripAround | notify.py:98 | `int()`'s stripping removes exactly the whitespace around text that neither starts nor ends with whitespace. |
| PyBuiltins.StripParts | notify.py:98 | `int()`'s stripping leaves text that neither starts nor ends with whitespace, between two runs of whitespace. |
| PyBuiltins.ParseIntStrip | notify.py:98 | Whitespace that `int()` skips around the text changes nothing: `int(" 3 ") == int("3")`. So `[1 - 3]` reads the fields `"1 "` and `" 3"` as 1 and 3. |
| PyBuiltins.ParseIntSeparators | notify.py:98 | A tab, a newline or a no-break space around digits changes nothing, but a leading U+001C makes `int()` raise, although `str.isspace` holds for it. |
| PyBuiltins.ParseIntLeadingJunk | notify.py:98 | Text starting with a character that is neither skipped whitespace, a sign nor a digit makes `int()` raise. |
| PyBuiltins.ParseIntPlus | notify.py:98 | A `+` sign changes nothing: `int("+" + d) == int(d)` when `d` starts with neither whitespace nor a sign. |
| PyBuiltins.ParseIntUnderscores | notify.py:98 | Underscores between digits change nothing: `int("1_0") == int("10")`. |
| PyBuiltins.ParseIntOfDigits | notify.py:98 | Plain digits give their decimal value. |
| PyBuiltins.ParseIntMinus | notify.py:98 | A minus sign before digits gives the negated value. |
| PyBuiltins.NatToString | notify.py:115 | `str(n)` is one or more decimal digits, with no leading zero unless `n` is 0. |
| PyBuiltins.DigitsValueOfNatToString | notify.py:115 | The digits `str(n)` prints have the value `n`. |
| PyBuiltins.ParseIntOfIntToString | notify.py:98 | `int(str(i)) == i` for every integer, negative ones included. |
| PyBuiltins.IntToString | notify.py:115 | `str(i)` starts with a minus sign exactly when `i` is negative, and every other character is a digit. |
| PyBuiltins.IntToStringOfParseInt | notify.py:98 | `str(int(s)) == s` for text in the form `str()` prints: an optional minus sign, then digits with no leading zero, and never `-0`. |
| PyBuiltins.CanonicalIntToString | notify.py:115 | `str(i)` always has that form. With `ParseIntOfIntToString`, `int()` and `str()` are inverse bijections between the integers and that text. |
| HostRange.DropSpaces | notify.py:105 | The `\s*` after a comma eats all the whitespace: what is left is empty or starts with a non-space. |
| HostRange.SplitTop | notify.py:105 | `re.split` gives at least one piece, and the first is a prefix of the text. One piece is the whole text. Several pieces are shorter in total than the text. |
| HostRange.IndexOf | notify.py:111 | The position of the first occurrence of a character, or the length when it does not occur. |
| HostRange.LineGroup | notify.py:111 | A match rebuilds the line as `prefix[inner]suffix`. The prefix holds no `[`, and the inner text no `]`. |
| HostRange.SearchGroup | notify.py:111 | A match takes the lazy `(.*?)` parts: no `[` in the prefix, no `]` in the inner text, and no newline in any group. The inner text is shorter than the expression. |
| HostRange.Range | notify.py:98 | `range(lo, hi)` holds `lo, lo+1, …, hi-1` and is empty when `lo >= hi`. |
| HostRange.ParseDash | notify.py:95-98 | A piece without a dash comes back as it is. |
| HostRange.Format | notify.py:115 | `"%s" %` prints a number as canonical text that `int()` reads back as that number, and prints text as itself. By `IntToStringOfParseInt`, that canonical text is the only one with this property. |
| HostRange.Place | notify.py:113-115 | Every placed name starts with the prefix and ends with the suffix. Which names are placed, and when placing fails, are stated by `PlacePlain`, `PlaceValues`, `PlaceRange`, `PlaceFails` and `PlaceUnion`. |
| HostRange.ExpandAll | notify.py:108 | Has no contract of its own. `ExpandAllAppend` and `ExpandPieces` state that it gives the union of the pieces' expansions, and that any failure fails the whole. |
| HostRange.Expand | notify.py:101-116 | Has no contract of its own: it is `parse_nodes`. The lemmas below state what it computes: `ExpandPieces` and `ExpandComma` for several top-level pieces, `ExpandLiteral` and `ExpandName` for text with no group, `ExpandGroup`, `ExpandGroupPlain`, `ExpandGroupRange` and `ExpandGroupComma` for a bracket group. |
| HostRangeProperties.ClosesFirstConcat | notify.py:105 | The lookahead `[^\[\]]*\]` on `u + v` is decided by `u`, or by `v` when `u` holds no bracket. |
| HostRangeProperties.SpacesSkipped | notify.py:105 | Whitespace before a piece changes neither the lookahead nor the rest of the piece. |
| HostRangeProperties.SplitTopSingle | notify.py:105-106 | The expression is not split iff every comma in it lies inside a bracket pair. |
| HostRangeProperties.SplitTopPieces | notify.py:105 | Commas inside brackets never split: no piece has a top-level comma, and no piece after the first starts with whitespace. |
| HostRangeProperties.SplitTopConcat | notify.py:105 | A top-level comma and the whitespace after it separate the pieces of the text before it from the pieces of the text after it. |
| HostRangeProperties.SplitTopAtComma | notify.py:105 | Splitting at a comma whose next bracket is not `]` appends the pieces of what follows the comma and its whitespace. |
| HostRangeProperties.ExpandAllAppend | notify.py:108 | The union of the expansions of two lists of pieces is the union of each list's. |
| HostRangeProperties.ExpandPieces | notify.py:105-108 | An expression expands to the union of the expansions of its top-level pieces. |
| HostRangeProperties.ExpandComma | notify.py:105-108 | `a, b` expands to the expansion of `a` joined with that of `b`. |
| HostRangeProperties.LineGroupNone | notify.py:111 | Within one line, nothing matches iff no `]` follows a `[`. |
| HostRangeProperties.NoGroupAtNewline | notify.py:111 | Across a newline, a group exists iff the first line has a pair or the rest has a group. |
| HostRangeProperties.SearchGroupNone | notify.py:111-112 | `re.search` finds nothing iff no `]` follows a `[` on the same line. |
| HostRangeProperties.SearchGroupOneLine | notify.py:111 | On text without a newline, the search is the single-line match. |
| HostRangeProperties.LineGroupAt | notify.py:111 | The match is cut at the first `[` and at the first `]` after it. |
| HostRangeProperties.SearchGroupExact | notify.py:111 | For `prefix[inner]suffix` on one line, with no `[` in the prefix and no `]` in the inner text, the groups are exactly `prefix`, `inner` and `suffix`. Later brackets stay in the suffix. |
| HostRangeProperties.ExpandLiteral | notify.py:105-116 | Text with no top-level comma and no `[…]` on one line expands to itself alone. Dashes outside brackets are never read as ranges. |
| HostRangeProperties.ExpandName | notify.py:105-116 | Text with no comma and no `]` is a single literal name, even with an open `[`. |
| HostRangeProperties.GroupNoTopLevelComma | notify.py:105 | A single group with a comma-free prefix is not split at the commas inside its brackets. |
| HostRangeProperties.ExpandGroup | notify.py:111-115 | `prefix[inner]suffix` expands the inner text, passes each piece through `parse_dash` and puts every value between the prefix and the suffix. A failure of the inner text fails the whole. |
| HostRangeProperties.ExpandGroupPlain | notify.py:98 | A single value without a dash in brackets is kept verbatim, leading zeros included. |
| HostRangeProperties.PlacePlain | notify.py:113-115 | Placing a piece without a dash gives the single name `prefix + piece + suffix`. |
| HostRangeProperties.ExpandGroupRange | notify.py:95-115 | `prefix[lo-hi]suffix` succeeds iff `int()` accepts both bounds. Its result is exactly the names `prefix + str(n) + suffix` for `lo <= n <= hi`. |
| HostRangeProperties.PlaceDash | notify.py:95-98 | Placing the piece `lo-hi` succeeds iff both bounds parse. It yields one name for each integer from `lo` to `hi`. |
| HostRangeProperties.PlaceRange | notify.py:113-115 | A piece whose values are the numbers `l` to `h` places exactly the names `prefix + str(n) + suffix` for `l <= n <= h`. |
| HostRangeProperties.PlaceFails | notify.py:98 | A piece that `parse_dash` rejects makes the placing fail. |
| HostRangeProperties.PlaceValues | notify.py:113-115 | A piece `parse_dash` accepts yields exactly `prefix + "%s" % v + suffix` for each of its values. |
| HostRangeProperties.RangeNames | notify.py:98 | The values of `range(l, h + 1)`, printed, are exactly `str(n)` for `l <= n <= h`. |
| HostRangeProperties.PlaceUnion | notify.py:113-115 | Placing the values of two sets of pieces is the union of placing each set. |
| HostRangeProperties.PlaceResultUnion | notify.py:113-115 | Placing a joined expansion is joining the placed expansions, failures included. |
| HostRangeProperties.NoBracketOpen | notify.py:105 | Text without brackets never satisfies the lookahead, so a comma before it splits. |
| HostRangeProperties.ExpandGroupComma | notify.py:111-115 | `p[a, b]s` expands as `p[a]s` and `p[b]s` together. |
| HostRangeProperties.ParseIntNonNegative | notify.py:98 | `int()` of text without a minus sign is never negative. |
| HostRangeProperties.DashRange | notify.py:95-98 | `lo-hi` (anything after a second dash being ignored) succeeds iff both bounds parse. It yields the integers from `lo` to `hi` inclusive, none when `lo > hi`. |
| HostRangeProperties.ParseDashValues | notify.py:95-98 | The numbers `parse_dash` yields are non-negative and print without a leading zero. Text it passes through is the whole dash-free piece. |
| HostRangeProperties.ExampleList | notify.py:104-108 | `qh2-rcc5,qh2-rcc6` and `qh2-rcc5, qh2-rcc6` give the two names. |
| HostRangeProperties.ExampleRange | notify.py:110-115 | `qh2-rcc[10-12]` gives `qh2-rcc10`, `qh2-rcc11` and `qh2-rcc12`, for any host prefix. |
| HostRangeProperties.ExampleLeadingZeros | notify.py:95-98 | `qh2-rcc[01-03]` gives `qh2-rcc1`, `qh2-rcc2` and `qh2-rcc3`. |
| HostRangeProperties.ExampleSingle | notify.py:98 | `qh2-rcc[07]` gives `qh2-rcc07`. |
| HostRangeProperties.ExampleRangeAndSingle | notify.py:101-115 | `qh2-rcc[01-03,07]` gives `qh2-rcc1`, `qh2-rcc2`, `qh2-rcc3` and `qh2-rcc07`. |
| HostRangeProperties.ExampleUnclosed | notify.py:111-116 | `qh2-rcc[10-` comes back unchanged as a single name. |
| HostRangeProperties.ExampleSecondGroupKept | notify.py:111-115 | In `qh2-rcc[1]b[2]`, only the first group is expanded: the result is `qh2-rcc1b[2]`. |
| HostRangeProperties.ExampleNotANumber | notify.py:98 | `qh2-rcc[x-y]` fails, because `int("x")` raises. |
| HostRangeProperties.ExampleSeparator | notify.py:98 | `qh2-rcc[\x1c1-3]` fails, because `int("\x1c1")` raises. |
| Aggregates.HostsByAggregates | notify.py:143-147 | A host is in the result iff it is a host of an aggregate whose name is listed. |
| Aggregates.HostsByZones | notify.py:150-155 | A host is in the result iff it is a host of an aggregate whose metadata has an `availability_zone` key with a listed value. Aggregates without the key contribute nothing. |
| Aggregates.ZonesWithinNames | notify.py:143-155 | Filtering by zones never yields more than filtering by the names of the aggregates in those zones. The two agree when aggregate names are unique. |
| Enrichment.IdentityService.GetProject | notify.py:169 | `projects.get` logs one call. It returns a new project with the tenant's id and name and empty `servers` and `users`, or nothing for an unknown tenant. |
| Enrichment.IdentityService.ListRoleAssignments | notify.py:173 | `role_assignments.list` logs one call and returns the assignments on the project, in order. |
| Enrichment.IdentityService.GetUser | notify.py:175 | `users.get` logs one call and returns the user's record, or nothing for an unknown user. |
| Enrichment.AssignmentsOnMembers | notify.py:173 | The listing holds exactly the service's assignments on that project. |
| Enrichment.AssignedUsersMembers | notify.py:173-177 | A user is assigned to a tenant iff some assignment on the tenant names them. |
| Enrichment.PopulateInstancesDetails | notify.py:158-187 | It either completes, when every tenant and user resolves, or ends with NotFound. On completion: (1) it returns the input instances in order; (2) every instance's project has the tenant's id and name, is shared by all instances of the tenant, holds the tenant's users and lists exactly the tenant's instances in input order; (3) each instance carries its project's user set; (4) the log gained exactly `Trace`, and a prefix of it otherwise; (5) the two counts are the numbers of distinct users and distinct tenants. |
| Enrichment.VisitAll | notify.py:164-182 | The loop visits the instances in order. When all resolve, the output list is the input, both dictionaries match the whole input, and the log gained exactly `Trace`. Otherwise the log gained a prefix of `Trace`. |
| Enrichment.VisitInstance | notify.py:168-182 | One pass of the loop: it succeeds iff the instance's tenant resolves. It adds that instance's calls to the log and keeps the dictionaries and links invariant one instance further. |
| Enrichment.TenantProject | notify.py:168-177 | The cached project of a seen tenant is reused with no call. An unseen tenant is resolved and added to the dictionaries. |
| Enrichment.ResolveProject | notify.py:169-177 | It fetches the project, lists its assignments, and fetches the users not yet cached. The log gains exactly `Resolution`. The project's users are the tenant's users, and the cache gains the tenant's assigned users. |
| Enrichment.FetchUsers | notify.py:173-176 | The inner loop fetches a user only when it is not cached. The log gains exactly `UserLookups`. `project_users` is the records the assignments name, in order. The cache gains exactly the named users. |
| Enrichment.Attach | notify.py:179-181 | The instance is linked to its tenant's project and takes the project's user set. The instance is appended to the project's `servers`. |
| Enrichment.Register | notify.py:169-170 | A newly fetched project joins `projects` without disturbing the earlier entries or links. |
| Enrichment.Finished | notify.py:179-181 | After the loop, every instance is enriched, and instances with the same tenant share one project object. |
| Enrichment.ProjectUsers | notify.py:177 | `set(project_users)` is the set of records of the users assigned to the tenant. |
| Enrichment.TracePrefix | notify.py:166 | The calls for the first `n` instances are a prefix of the calls for all of them. |
| Enrichment.AbortLog | notify.py:166-177 | A run that stops on an unknown project or user made a prefix of the calls of a complete run. |
| EnrichmentProperties.SeenTenants | notify.py:168-170 | The keys of `projects` are exactly the tenants of the instances. |
| EnrichmentProperties.KnownUsersAssigned | notify.py:173-175 | The keys of `users` are exactly the users assigned to the instances' tenants. |
| EnrichmentProperties.OfTenantMembers | notify.py:179-181 | A project's `servers` holds each instance of its tenant as often as it occurs in the input, and no other instance. |
| EnrichmentProperties.ResolutionTenantCount | notify.py:169-173 | Resolving a tenant fetches its project once and lists its assignments once. |
| EnrichmentProperties.ResolutionUserCount | notify.py:173-175 | Resolving a tenant fetches, once each, the users assigned to it that are not cached. No other user is fetched. |
| EnrichmentProperties.UserLookupsCount | notify.py:173-176 | The user loop fetches each user named and not cached exactly once, however many assignments name them. |
| EnrichmentProperties.TraceCount | notify.py:166-177 | Each call occurs in the trace as often as the visits of the instances add up to. |
| EnrichmentProperties.TenantCallsCount | notify.py:168-173 | Over the instances, each distinct tenant's project is fetched exactly once and its assignments listed exactly once. Tenants not among the instances are not touched. |
| EnrichmentProperties.UserCallsCount | notify.py:173-175 | Over the instances, each distinct user assigned to one of their tenants is fetched exactly once, and no other user. |
| EnrichmentProperties.LookupsOnce | notify.py:166-185 | A completed enrichment made each project fetch and each listing exactly once per tenant present among the instances. It made each user fetch exactly once per user assigned to one of those tenants, and no other call. |

## Left out

- `cli`, the `__main__` dispatch, `get_datetime` and `get_session` are left out: argument parsing, logging setup, date parsing and authentication hold no logic of the core.
- `get_instances_by_hosts` and `get_instances_by_file` are left out: they are generators over remote Nova calls and file reading. Their output is the instance sequence given to `PopulateInstancesDetails`.
- The Nova and Keystone clients are fixed data: the aggregate list, project names, role assignments and user records. Network errors, retries and authentication are not modelled.
- Logging: only the two counts the log lines report are modelled, as the results `userCount` and `projectCount`.
- The model follows Python 3 from 3.6 on, with `str` text. `int()` accepts single underscores between digits. `\s` uses the full Unicode whitespace set of `str.isspace`. `int()` skips only `\t` to `\r`, space and the non-ASCII characters of that set, which it maps to a space before parsing. Under Python 2, which the source may also run on, `int("1_0")` raises `ValueError` and `\s` on a byte string matches ASCII whitespace only. Those semantics are not modelled.
- `PyBuiltins.ParseInt` and `PyBuiltins.IntToString` take any number of digits. Python 3.11, and the security releases 3.7.14, 3.8.14, 3.9.14 and 3.10.7, raise `ValueError` when `int()` reads or `str()` prints more than 4300 digits (the default of `sys.set_int_max_str_digits`). There `a[<4301-digit number>-1]` raises, while the model gives `Ok({})`.
- `PyBuiltins.ParseInt` accepts ASCII digits only. Python's `int()` also accepts other Unicode decimal digits.
- `re.split` tests its lookahead after the whitespace that follows a comma. The model tests it right after the comma. The two agree because whitespace holds no bracket.
- `Expand` returns a set for a literal too, where the source returns the one-element list `[nodes]`. Every caller uses the result as a collection of names.
- Role assignments are assumed to name users. A group assignment has no `user` attribute, so `assignment.user["id"]` raises `AttributeError` in the source; that case is not modelled.
- `PopulateInstancesDetails` ends with `NotFound` where the client raises for an unknown project or user. The partial updates made before the raise are not stated, beyond the log being a prefix of a complete run's.
- The users of a project are compared as values (`User` records). The source puts the same client objects in each project's set; object identity of user records is not modelled.
- `Enrichment.Attach` gives the instance a copy of its project's user set. In the source, `server.users = server.project.users` (notify.py:180) makes every instance share the one set object of its project, so a later change to that set would show through every instance. The model does not capture that aliasing. Nothing in the source changes the set after it is built.
- `PopulateInstancesDetails`: the loop body is split into the methods `VisitInstance`, `TenantProject`, `ResolveProject`, `FetchUsers` and `Attach`. The source has one loop with an inner loop; the split is only for the proof.
