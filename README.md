# System information collector: storage scheme and client encoder

The repository is a small reporting system made of two programs:

- a client (`client.py`). It collects a host's hostname, IP address, MAC address, operating system, memory, disk and CPU figures, and POSTs them as JSON to a server.
- a FastAPI server (`server.py`). It keeps every submission as a file in a `data/` directory. Each file is named `<hostname>_<YYYYMMDD_HHMMSS>.json`, from the hostname and the server's clock.

This Dafny project models the logic of both programs:

- **Strings** (`strings.dfy`): Python's `<` on `str`, the order `max` uses. It includes the lemma that fields of equal width compare like tuples, and `s.split(c)[0]`.
- **Stamps** (`stamps.dfy`): the server clock reading and its `strftime("%Y%m%d_%H%M%S")` rendering. `Seconds` counts whole seconds in chronological order. The main theorem is that comparing two stamps as strings orders them exactly as their readings, truncated to the whole second (`Seconds`), compare.
- **Telemetry** (`telemetry.dfy`): the eight-field snapshot record and the JSON values it carries.
- **Server** (`server.dfy`):
  - the `data/` directory as a map from bare filenames to records;
  - ingestion as an update of that map;
  - the latest-for-host query as a prefix filter plus `max`;
  - the host list as a loop over the listing;
  - a `DataDirectory` class whose handlers change the map in place.

  The file also holds the two places where the as-written name parsing goes wrong, and corrected readings of the names.
- **Client** (`client.py` side, `client.dfy`):
  - the MAC address expression `(node >> k) & 0xff`, formatted with `{:02x}`, reversed and joined by `:`, together with a decoder;
  - the collector's fall-back to an `{"error": ...}` object;
  - the POST target;
  - the rule that turns an HTTP status into a success flag.

## Model

| member | source | states |
|---|---|---|
| Strings.Before | server.py:76 | `split("_")[0]` is a prefix without `_`; it is the whole string or stops just before the first `_` |
| Strings.Below | server.py:53 | Python's `<` on `str`: never holds between equal strings, and a proper prefix sorts before the longer string |
| Strings.EndsWith | server.py:75 | `s.endswith(suffix)`: `s` is its own head followed by `suffix` |
| Strings.BelowFixedWidth | server.py:53 | equal-width heads compare first, and the tails are compared only on a tie |
| Strings.BeforeJoined | server.py:76 | the text before the first `c` of `head + c + tail` is that of `head` |
| Stamps.StampShape | server.py:31 | every rendered stamp is 8 digits, `_`, 6 digits |
| Stamps.Stamp | server.py:31 | `strftime("%Y%m%d_%H%M%S")` of a valid reading is 15 characters with `_` at position 8 |
| Stamps.DecimalOrder | server.py:31 | zero-padded decimals of one width compare like the numbers; equal exactly when the numbers are |
| Stamps.StampTupleOrder | server.py:31 | stamps compare like the (year, month, day, hour, minute, second) tuple; equal exactly on the same second |
| Stamps.StampOrder | server.py:31 | string order of stamps equals the order of the readings truncated to the whole second (`Seconds`), in both directions; equal exactly when that second is the same |
| Stamps.DayNumberOrder | server.py:31 | an earlier date has a smaller day number |
| Telemetry.ToJson | client.py:69-78 | the object the client posts (and `.dict()` of the record the server stores, server.py:15-24) has exactly the eight snapshot keys and no `error` key |
| Server.Filename | server.py:32 | the name is the hostname, `_`, the stamp and `.json`, in that order, and is exactly 6 characters longer than host and stamp together |
| Server.NameRoundTrip | server.py:31-32 | a written name is `<host>_<15-char stamp>.json`; the host and stamp read back from its right end |
| Server.SnapshotNameIsFilename | server.py:32 | every name of that shape is the name ingestion gives its host and stamp |
| Server.FilenameCollision | server.py:31-32 | two submissions share a file exactly when they share host and second |
| Server.SameHostOrder | server.py:53 | names of one host compare like their stamps |
| Server.IngestWritesOneFile | server.py:32-36 | ingestion adds or overwrites exactly the computed name; every other entry is unchanged |
| Server.Ingest | server.py:32-36 | the directory gains exactly the computed name, and that name holds the record |
| Server.SameSecondOverwrites | server.py:31-36 | a second post of a host within one second replaces the first |
| Server.DistinctSubmissionsKept | server.py:31-36 | posts differing in host or second are both kept |
| Server.DataDirectory.ReceiveSystemInfo | server.py:26-38 | the directory becomes the ingestion of the record at the given clock; the reply is the success acknowledgement |
| Server.Acknowledgement | server.py:38 | the success body has keys `status` and `message`, with status `success` |
| Server.GreatestExists | server.py:53 | a non-empty set of names has a greatest one |
| Server.GreatestUnique | server.py:53 | the greatest name is unique |
| Server.Greatest | server.py:53 | `max` returns a member that sorts after every other member |
| Server.Latest | server.py:42-59 | 404 with `No data found for hostname: <h>` exactly when no name starts with `h_`; otherwise the record of a matching name greater than all other matches |
| Server.Matching | server.py:47 | the listing names that start with `hostname + "_"`, and only those |
| Server.LatestIsNewest | server.py:47-59 | when the matches are all snapshots of the host, the returned one has the greatest clock reading |
| Server.LatestAfterIngest | server.py:32-59 | posting a snapshot whose clock reading exceeds those of the host's stored ones, with no other host's files matching, makes the query return it |
| Server.HostsAfterIngest | server.py:73-77 | ingesting adds exactly `hostname.split("_")[0]` to the host set |
| Server.HostListedAfterIngest | server.py:73-77 | a hostname without `_` is listed after ingestion |
| Server.ListedAsHost | server.py:75 | a name that passes the filter has at least 6 characters, and its `split("_")[0]` is a proper prefix of it |
| Server.HostSet | server.py:71-77 | holds `split("_")[0]` of every listed name, and no host in it contains `_` |
| Server.DataDirectory.GetAllHosts | server.py:65-79 | the returned list holds exactly the first-underscore prefixes of the names that contain `_` and end in `.json`, each once |
| Server.ListOf | server.py:79 | `list(set)` holds every element exactly once |
| Server.HostListTruncates | server.py:75-77 | the host `a_b` is listed as `a` |
| Server.LatestAfterClockStepsBack | server.py:31-53 | when the wall clock falls back between two posts of one host, the query returns the earlier post |
| Server.LatestReturnsOtherHost | server.py:47-53 | with host `a_b` posting before host `a`, the query for `a` returns `a_b`'s record |
| Server.LatestOfHost | server.py:42-59 | the query with the host read from the right: 404 exactly when the host has no snapshot, otherwise its greatest snapshot |
| Server.LatestOfHostAfterIngest | server.py:32-59 | the corrected query returns a newly posted snapshot whose clock reading exceeds the host's stored ones, whatever other hosts exist |
| Server.SnapshotHostsAfterIngest | server.py:73-77 | reading hosts from the right lists the full hostname after ingestion |
| Client.Hex2 | client.py:32 | `{:02x}`: two lower-case hex digits whose value is the octet |
| Client.HexValue | client.py:32 | a hex digit's value is below 16, and rendering that value gives the digit back |
| Client.Octet | client.py:32 | `(node >> shift) & 0xff` is below 256 |
| Client.ShiftRightDivides | client.py:32 | `n >> k`, as the model computes it bit by bit, is the floored division `n // 2**k`, negative `n` included |
| Client.OctetShift | client.py:32 | the octet at shift `8i + 8` is the octet at shift `8i` of the node without its low byte |
| Client.Reverse | client.py:33 | `[::-1]` puts element `n-1-i` at index `i` |
| Client.JoinOfPairs | client.py:33 | joining two-character groups with `:` gives length `3n - 1`, a `:` at every third position, and group `k/3` elsewhere |
| Client.Join | client.py:33 | `sep.join(parts)` starts with the first part, followed by `sep` when more parts follow; one part joins to itself |
| Client.Groups | client.py:32 | the comprehension yields six groups, each two lower-case hex digits |
| Client.ReversedGroups | client.py:32-33 | after `[::-1]`, group `i` is the `{:02x}` of the octet at shift `40 - 8i` |
| Client.JoinedGroups | client.py:32-33 | the joined string has 17 characters, with `:` at every third position and the matching hex digit of the octet at shift `40 - 8(k/3)` elsewhere |
| Client.MacAddress | client.py:32-33 | 17 characters, `:` at positions 2, 5, …, 14; group `j` is the `{:02x}` of the octet at shift `40 - 8j` (most significant first) |
| Client.ParsedOctets | client.py:32-33 | a MAC-shaped string yields six octets |
| Client.FromBigEndian | client.py:32-33 | the k big-endian octets of a node read back as the node modulo `2^(8k)` |
| Client.FromOctetsInjective | client.py:32-33 | distinct octet sequences of one length spell distinct numbers |
| Client.MacShaped | client.py:32-33 | the rendering is MAC-shaped |
| Client.MacOctets | client.py:32-33 | the rendering's groups decode to the node's big-endian octets |
| Client.MacRoundTrip | client.py:32-33 | decoding the rendering gives `node mod 2^48` |
| Client.OctetsRoundTrip | client.py:32-33 | six octets read as a number and split again are the same octets |
| Client.MacCanonical | client.py:32-33 | every string the decoder accepts is the rendering of what it decodes to |
| Client.MacLow48 | client.py:32-33 | only the low 48 bits of the node reach the string |
| Client.CollectSystemInfo | client.py:18-83 | on any probe failure, an object whose only key is `error`, carrying the first failure's message; otherwise the eight snapshot keys with the hostname and the rendered MAC |
| Client.Failures | client.py:20-81 | at most six messages, empty exactly when every probe yielded a value |
| Client.ErrorObject | client.py:83 | `{"error": str(e)}`: the only key is `error`, holding the message, and it shares no key with the snapshot fields |
| Client.PostTarget | client.py:90 | the URL is the server URL followed by `/api/system-info` |
| Client.SendSystemInfo | client.py:85-104 | posts the collected object as `application/json` to the target; true exactly on a response with status 200, false on other statuses and on exceptions |
| Client.FailedCollectionPostsNoFields | client.py:81-93 | a failed collection is still posted, without any snapshot field |

## Left out

- Operating-system probes are inputs (`Client.Probes`): `socket.gethostname`, the UDP-connect IP lookup, `uuid.getnode`, `platform.*` and `psutil.*`. Each probe either yields a value or raises with a message. `uuid.getnode` and the client clock are treated as unable to raise.
- The clocks are parameters. The server's `datetime.now()` is a `Stamps.DateTime` argument, and the client's `isoformat()` text is a string field of the probes.
- HTTP transport and routing (`requests.post`, FastAPI, uvicorn) are plain values: a `Transport` outcome, a `Reply` status and body. The hosts endpoint's `{"hosts": [...]}` wrapper is left out; `GetAllHosts` returns the list itself.
- Pydantic validation of the request body is not modelled. The server receives an already-typed `Telemetry.SystemInfo`.
- JSON serialisation and `indent=4` are not modelled. A stored file holds the record itself, and the latest query returns that record.
- Floating-point readings (`cpu_percent`, `percent_used`) are carried as their text. No operation here looks inside them.
- The 500 paths (a failed write, a failed read, an undecodable file in `data/`) are not modelled, because file I/O cannot fail in the map model. Non-snapshot files in the listing are filtered exactly as the source filters them.
- Hostnames containing `/` or other path syntax are not modelled: they would change which file `open` writes. In the model the name is just a map key.
- Concurrent requests racing on the same filename, logging, `os.makedirs`, and the `__main__` blocks are not modelled.
- The server clock is local wall time (`datetime.now()`), which can step back at a daylight-saving fall-back or a clock correction. "Latest" in every contract here means the greatest clock reading, not the last post; `Server.LatestAfterClockStepsBack` shows the difference.
- Server.FilenameCollision: file names are assumed to be case-sensitive and never Unicode-normalised, as on Linux. On a file system that ignores case, hosts `A` and `a` posting in the same second write one file, and the query for `a` can then answer 404 right after `a` posted. Neither the map model nor `Server.Ingest` captures that.
- Stamps.Stamp: `%Y` is zero-padded to four digits. Platform `strftime` may print fewer digits for years below 1000; no real clock reading is that early.

## Findings

| source | as written | input that shows it | evidently intended | confidence | as-written member | corrected member |
|---|---|---|---|---|---|---|
| server.py:47-53 | the latest query keeps every file whose name starts with `hostname + "_"` and returns the greatest name | host `a_b` posts at 2024-01-01 00:00:00, then host `a` posts at 00:00:01; the query for `a` returns `a_b`'s record, because `"a_b_…" > "a_2…"` | return the newest snapshot of exactly the named host | high; not executed | Server.LatestReturnsOtherHost | Server.LatestOfHostAfterIngest |
| server.py:75-77 | the host list reports `file.split("_")[0]` | a snapshot of host `a_b` is listed as host `a` | list each snapshot's full hostname, read from the right past the fixed-width stamp | high; not executed | Server.HostListTruncates | Server.SnapshotHostsAfterIngest |
