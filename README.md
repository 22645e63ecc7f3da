# Gallery link aggregation, modelled in Dafny

The gallery bot (`gal/src/main.rs`) serves `GET /v1/links`. The handler scans the
threads of one forum channel and returns a JSON list of strings built from the
messages' attachment URLs. This project models the two functions that build that list:

- `get_attachments` turns the outcome of fetching one thread's messages into strings.
  A failed fetch gives no strings. Otherwise each message gives one string: its
  attachment URLs concatenated with no separator. Empty strings are dropped.
- `gen_links` scans every archived thread, then every active thread whose parent
  channel is the forum. It appends each thread's strings to `urls`, in that order.

Files:

- `wrappers.dfy`: module `Wrappers`, which holds `Option`.
- `links.dfy`: module `Links`, which holds the data model (`Attachment`, `Message`,
  `Fetch`, `Thread`), the pure `get_attachments` pipeline (`JoinUrls`, `MessageLinks`,
  `GetAttachments`) and `gen_links` as the method `GenLinks`.

`GenLinks` loops over the chained thread sequence `Selected(archived, active, forum)`,
just as the Rust `for` loop walks `archived.iter().chain(active.iter().filter(..))`.
It is proved equal to the specification function `LinksOf` over that sequence. The
lemmas then state what `LinksOf` and `Selected` promise. They cover ordering,
splitting at any thread, total length, the parent filter and the absence of
deduplication.

The chat platform's network calls are replaced by data:

- the archived thread listing and the active thread listing are parameters;
- each `Thread` carries `fetched`, the outcome of fetching its messages;
- the forum id is a `nat` parameter.

## Model

| member | source | states |
|---|---|---|
| `Links.JoinUrlsAppend` | gal/src/main.rs:132 | joining the URLs of two attachment lists in a row gives the two joined strings concatenated, so no separator is inserted |
| `Links.JoinUrlsAt` | gal/src/main.rs:131-132 | each attachment's URL appears verbatim, in attachment order, after the joined URLs before it and before the joined URLs after it |
| `Links.JoinUrlsEmpty` | gal/src/main.rs:132-135 | a message's joined string is empty exactly when it has no attachments or only empty URLs, so exactly those messages are dropped |
| `Links.MessageLinks` | gal/src/main.rs:130-136 | a fetched message list yields at most one string per message, and every string is non-empty |
| `Links.GetAttachments` | gal/src/main.rs:125-137 | a failed fetch yields the empty list rather than an error; a successful one yields at most one string per message; no string is empty |
| `Links.KeptSpec` | gal/src/main.rs:130-136 | the reference index list `Kept` is strictly increasing, lies within the message list, and holds exactly the messages with a non-empty joined string |
| `Links.MessageLinksAsKept` | gal/src/main.rs:130-136 | the k-th output string is the joined URLs of the k-th kept message, so output order is message order |
| `Links.MessageLinksAppend` | gal/src/main.rs:130-136 | the strings of two message lists in a row are those of the first followed by those of the second |
| `Links.MessageLinksLength` | gal/src/main.rs:130-136 | the output length equals the number of messages with a non-empty joined string |
| `Links.InForum` | gal/src/main.rs:110-113 | the filtered active threads are no more than the input, and each has the forum as its parent |
| `Links.InForumCount` | gal/src/main.rs:110-113 | filtering keeps every occurrence of a thread whose parent is the forum and drops every occurrence of any other thread |
| `Links.SelectedCount` | gal/src/main.rs:109-113 | a thread is scanned once per archived occurrence, whatever its parent, plus once per active occurrence when its parent is the forum; no deduplication |
| `Links.LinksOfAppend` | gal/src/main.rs:109-116 | the links of two thread lists in a row are the first list's links followed by the second's |
| `Links.LinksOfAt` | gal/src/main.rs:108-117 | each thread's links appear unchanged and contiguous, between the links of the threads before it and those after it |
| `Links.LinksOfLength` | gal/src/main.rs:109-116 | the total number of links is the sum of the per-thread result lengths |
| `Links.GenLinks` | gal/src/main.rs:96-123 | requires every active thread to have a parent id; returns the links of all archived threads in order, then the links of the forum's active threads in order; the length is the sum of the per-thread lengths |

## Left out

- Discord client setup, the event handler, the `ping` command, the axum router, server and CORS layer, and `get_links` (gal/src/main.rs:19-94). This is bootstrap and library glue. `get_links` discards its query and wraps `gen_links` in `Json`.
- The network calls `get_archived_public_threads`, `get_active_threads` and `messages` (gal/src/main.rs:99-103, 127). Their results are inputs. Any paging or message limit they apply is inside the library and is not modelled.
- The `unwrap`s on the two thread listings (gal/src/main.rs:102, 103). The model takes the listings as already fetched, so it only covers runs where both fetches succeed.
- `GenLinks`: the `unwrap` of an active thread's `parent_id` (gal/src/main.rs:113) panics on `None`. This is modelled as the precondition `AllParented(active)`, not as an error result.
- The compile-time environment parsing of `FORUM_ID` and `GID` with `parse().unwrap()` (gal/src/main.rs:97-98). The forum id is a `nat` parameter. The guild id only chooses which active listing is fetched, so it has no counterpart. The `u64` width of ids is not modelled.
- Async execution and the endless server loop spawned with `tokio::spawn` (gal/src/main.rs:43-54). This is concurrency and process lifetime.
- `GenLinks`: Rust's `filter` runs lazily, after the archived threads have been fetched. A panic would happen mid-scan, and the side effects before it are not modelled. Since `gen_links` then returns nothing, the returned value is unaffected.
- Other descriptions of this system mention a time-based cache, tag resolution, moderation-reaction filtering and content-type classification of attachments. None of them appears in gal/src/main.rs, so none is modelled. The model follows the code.
