# Cluster sample app: counters and IPv4 address list

This project models the logic of `src/app.js` in the cluster sample application, a small Express server that shows a status page for one container. That logic has two parts:

- **Activity counters.** The process keeps two counters. The main page counter starts at 1 and the health-check counter starts at 0. The `/` handler builds the page from the current counters and then adds one to the page counter. The `/healthcheck` handler answers `OK` and then adds one to the health-check counter. `hit_counters.dfy` (module `HitCounters`) models them in two layers:
  - spec functions over a sequence of requests: `Step`, `Run`, and `Shown` (the counters each served page displays);
  - a class `Counters`, whose two handler methods update the fields in place and are proved to follow those functions.
- **IPv4 address list (`getAllIPAddrs`).** This walks the interface table in key order, and within each interface its entries in order. It keeps every entry whose family is the string `"IPv4"` and that is not internal, paired with its interface name. `network_addresses.dfy` (module `NetworkAddresses`) has three parts:
  - the spec function `AllIpAddrs`;
  - the nested-loop method `GetAllIpAddrs`, proved equal to it;
  - an independent reference, "flatten the table, then filter". It is used to prove soundness, completeness, order preservation and the length bound.
- **Address table rows.** `address_table.dfy` (module `AddressTable`) models the property reads behind each row of the page's address table. This is where the finding below comes from.

The repository also has a table client, `src/ddbClient.js`, with put, update, scan and delete operations for node records. `src/app.js` imports only `express` and `os` and never calls it. Its counters are purely local, and the page is built *before* the increment. This model follows the code.

## Model

| member | source | states |
|---|---|---|
| `HitCounters.Counters.constructor` | src/app.js:26-27 | At process start the page counter is 1, the health-check counter is 0, and no request has been served. |
| `HitCounters.Counters.HandleMainPage` | src/app.js:35-39 | If building the page throws (its interface query fails), nothing is displayed and neither counter changes. Otherwise it returns the counters the page displays, which are the values before this request. Then the page counter goes up by exactly 1 and the health counter is unchanged. The value returned is the number of pages served so far, this one included. |
| `HitCounters.Counters.HandleHealthCheck` | src/app.js:42-46 | Answers `"OK"`. The health counter goes up by exactly 1 and the page counter is unchanged. No page tally is added. |
| `HitCounters.RunCounts` | src/app.js:26-46 | After any sequence of requests, the page counter is 1 plus the number of `/` requests whose page was built and the health counter is the number of `/healthcheck` requests. No update is lost. |
| `HitCounters.NthVisitShowsN` | src/app.js:37-38 | Each `/` request shows exactly one tally, and the n-th page served displays exactly n. |
| `HitCounters.RunMonotone` | src/app.js:26-46 | Both counters never decrease as requests are served and never drop below their initial values (1 and 0). |
| `HitCounters.ShownExtends` | src/app.js:35-39 | Later requests never change what earlier pages displayed: the shown tallies only grow by appending. |
| `NetworkAddresses.GetAllIpAddrs` | src/app.js:81-97 | The nested loops return exactly `AllIpAddrs` of the interface table. Every element is a non-internal IPv4 entry. The result is no longer than the table's total number of entries. |
| `NetworkAddresses.InterfaceAddrsIsKeep` | src/app.js:87-92 | The inner loop's result for one interface equals the filter applied to that interface's entries, each paired with the interface name. |
| `NetworkAddresses.AllIpAddrsIsKeepOfFlatten` | src/app.js:83-95 | The result equals the filter applied to all entries in enumeration order (interfaces in key order, entries in order). |
| `NetworkAddresses.KeepIsOrderedSubsequence` | src/app.js:86-92 | The filter keeps elements in order: result element k is the input element at a strictly increasing index. Every input element that passes the filter is kept. |
| `NetworkAddresses.AllIpAddrsPreservesOrder` | src/app.js:86-93 | The address list is an ordered subsequence of the enumeration of all entries. |
| `NetworkAddresses.AllIpAddrsPrefix` | src/app.js:86-93 | The addresses of the first n interfaces form a prefix of the result, so earlier interfaces come first. |
| `NetworkAddresses.AllIpAddrsBounded` | src/app.js:83-95 | The result is no longer than the total number of interface entries. |
| `NetworkAddresses.AllIpAddrsSound` | src/app.js:89-90 | Every element of the result has family `"IPv4"` and is not internal. |
| `NetworkAddresses.AllIpAddrsMembers` | src/app.js:86-92 | An element is in the result if and only if it is some interface's entry, paired with that interface's name, and the entry is IPv4 and not internal. |
| `NetworkAddresses.AllIpAddrsComplete` | src/app.js:86-92 | Every non-internal IPv4 entry appears in the result, paired with the name of its interface. |
| `AddressTable.RowAsWrittenLosesName` | src/app.js:62-64 | As written, the name cell of every row reads `ip.name` and renders `"undefined"`. The other three cells are the intended ones. |
| `AddressTable.Eth0RowAsWritten` | src/app.js:63 | A concrete row: interface `eth0` with address 10.0.0.5 is shown as `undefined, IPv4, 10.0.0.5/24, 10.0.0.5`. |
| `AddressTable.RowShowsEntry` | src/app.js:63 | The corrected row shows the interface name, the family, the CIDR (`"null"` when the system gives none) and the address. |
| `AddressTable.TableNamesInterfaces` | src/app.js:62-64 | The corrected table has one row per address. Each row names the interface the address belongs to and shows the type `IPv4`. |

## Findings

| source | as written | input that shows it | evidently intended | confidence | as-written member | corrected member |
|---|---|---|---|---|---|---|
| src/app.js:63 | The name cell reads `ip.name`. The objects pushed at src/app.js:90 have only the keys `interfaceName` and `infos`, so the cell renders `undefined`. | Any non-internal IPv4 entry, e.g. interface `eth0` with address 10.0.0.5 | Read `ip.interfaceName`, so the table shows the interface's name | high; not executed | `AddressTable.RowAsWrittenLosesName` | `AddressTable.TableNamesInterfaces` |

## Left out

- The Express listener, the route registration and the module export (src/app.js:23-24, 29-32, 99) are HTTP plumbing, and so are the `console.debug` calls in each handler (src/app.js:36, 43). Each handler is modelled only as its counter update and its answer.
- The HTML and CSS text of the page is not modelled (src/app.js:49-78). Neither is the date line, which depends on the clock and the locale. Only the counters the page reads and the cells of the address table are modelled.
- The `os.networkInterfaces()` call is a call into the operating system. Whether it throws during a page build is the `built` parameter of `HandleMainPage`. Its result is the input of `GetAllIpAddrs`: a sequence of (name, entries) pairs already in key order. The input does not model JavaScript's own key ordering, which lists integer-like names first.
- `NetworkAddresses.GetAllIpAddrs`: `family` is a string, as the source's comparison with `'IPv4'` expects. Runtimes that report `family` as a number are not modelled. On those, the source's filter keeps nothing.
- `HitCounters.Counters`: the counters are unbounded naturals. The source's JavaScript numbers are exact only up to 2^53, and that limit is not modelled.
- Concurrency is not modelled. Node runs the handlers on one thread, and each increment is one synchronous statement with no `await`.
- `src/ddbClient.js` is not part of this model. `src/app.js` never calls it, and its put, update, scan and delete go to an external table whose behaviour cannot be seen. Its scan filter compares against the fixed id `'1'` instead of its `nodeId` argument (src/ddbClient.js:63-66).
- `test/test.js` is not part of this model. It is an HTTP test harness, and the mocked table scan it sets up is never reached.
