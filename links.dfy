/**
 * The link-aggregation pipeline of the gallery bot: every thread of a forum
 * channel is scanned and the attachment URLs of its messages are collected
 * into one list of strings, which the HTTP endpoint serves.
 *
 * The chat platform's network calls are replaced by data: the archived and
 * active thread listings are parameters, and each thread carries the outcome
 * of fetching its messages.
 */
module Links {
  import opened Wrappers

  /** One file attached to a message; only its URL is used. */
  datatype Attachment = Attachment(url: string)

  /** One chat message, with its attachments in the order the platform lists them. */
  datatype Message = Message(attachments: seq<Attachment>)

  /** The outcome of fetching a thread's messages: the platform may refuse (e.g. missing permission). */
  datatype Fetch = Fetched(messages: seq<Message>) | FetchFailed

  /** A forum thread: its channel id, its parent channel (if the platform reports one) and its messages. */
  datatype Thread = Thread(id: nat, parentId: Option<nat>, fetched: Fetch)

  // ---------------------------------------------------------------------
  // get_attachments
  // ---------------------------------------------------------------------

  /** The attachment URLs of one message glued together with no separator,
      which is what collecting an iterator of `String`s into a `String` does. */
  function JoinUrls(atts: seq<Attachment>): (r: string)
    ensures |atts| == 1 ==> r == atts[0].url
  {
    if atts == [] then "" else atts[0].url + JoinUrls(atts[1..])
  }

  /** Joining is a homomorphism from attachment lists to strings: no separator is inserted at any boundary. */
  lemma {:induction false} JoinUrlsAppend(a: seq<Attachment>, b: seq<Attachment>)
    ensures JoinUrls(a + b) == JoinUrls(a) + JoinUrls(b)
  {
    if a == [] {
      assert a + b == b;
    } else {
      assert (a + b)[1..] == a[1..] + b;
      JoinUrlsAppend(a[1..], b);
    }
  }

  /** The i-th URL appears verbatim, between the URLs before it and the URLs after it. */
  lemma {:induction false} JoinUrlsAt(atts: seq<Attachment>, i: nat)
    requires i < |atts|
    ensures JoinUrls(atts) == JoinUrls(atts[..i]) + atts[i].url + JoinUrls(atts[i + 1..])
  {
    assert atts == atts[..i] + ([atts[i]] + atts[i + 1..]);
    JoinUrlsAppend(atts[..i], [atts[i]] + atts[i + 1..]);
    JoinUrlsAppend([atts[i]], atts[i + 1..]);
  }

  /** The joined string is empty exactly when the message has no attachment or only empty URLs. */
  lemma {:induction false} JoinUrlsEmpty(atts: seq<Attachment>)
    ensures JoinUrls(atts) == "" <==> forall i :: 0 <= i < |atts| ==> atts[i].url == ""
  {
    if atts != [] {
      JoinUrlsEmpty(atts[1..]);
      assert forall i :: 1 <= i < |atts| ==> atts[i] == atts[1..][i - 1];
    }
  }

  /** The strings one message list yields: one joined string per message, empty ones dropped. */
  function MessageLinks(ms: seq<Message>): (r: seq<string>)
    ensures |r| <= |ms|
    ensures forall k :: 0 <= k < |r| ==> r[k] != ""
  {
    if ms == [] then []
    else
      var s := JoinUrls(ms[0].attachments);
      (if s == "" then [] else [s]) + MessageLinks(ms[1..])
  }

  /** What `get_attachments` returns for one thread; a failed fetch yields no links rather than an error. */
  function GetAttachments(t: Thread): (r: seq<string>)
    ensures t.fetched.FetchFailed? ==> r == []
    ensures t.fetched.Fetched? ==> |r| <= |t.fetched.messages|
    ensures forall k :: 0 <= k < |r| ==> r[k] != ""
  {
    match t.fetched
    case FetchFailed => []
    case Fetched(ms) => MessageLinks(ms)
  }

  /** Reference for MessageLinks: the positions of the messages whose joined URLs are non-empty, in increasing order. */
  function Kept(ms: seq<Message>): seq<nat>
  {
    if ms == [] then []
    else
      var rest := Kept(ms[..|ms| - 1]);
      if JoinUrls(ms[|ms| - 1].attachments) == "" then rest else rest + [|ms| - 1]
  }

  /** Kept lists only valid positions. */
  lemma {:induction false} KeptBound(ms: seq<Message>)
    ensures forall k :: 0 <= k < |Kept(ms)| ==> Kept(ms)[k] < |ms|
  {
    if ms != [] {
      KeptBound(ms[..|ms| - 1]);
    }
  }

  /** Kept lists valid positions in strictly increasing order, and exactly those whose message yields a non-empty string. */
  lemma {:induction false} KeptSpec(ms: seq<Message>)
    ensures forall k :: 0 <= k < |Kept(ms)| ==> Kept(ms)[k] < |ms|
    ensures forall j, k :: 0 <= j < k < |Kept(ms)| ==> Kept(ms)[j] < Kept(ms)[k]
    ensures forall i :: 0 <= i < |ms| ==> (i in Kept(ms) <==> JoinUrls(ms[i].attachments) != "")
  {
    KeptBound(ms);
    if ms != [] {
      var init := ms[..|ms| - 1];
      KeptSpec(init);
      assert forall i :: 0 <= i < |init| ==> init[i] == ms[i];
    }
  }

  /** MessageLinks is split by splitting the message list. */
  lemma {:induction false} MessageLinksAppend(a: seq<Message>, b: seq<Message>)
    ensures MessageLinks(a + b) == MessageLinks(a) + MessageLinks(b)
  {
    if a == [] {
      assert a + b == b;
    } else {
      assert (a + b)[1..] == a[1..] + b;
      MessageLinksAppend(a[1..], b);
    }
  }

  /** Appending one message appends its joined URLs, unless they are empty. */
  lemma MessageLinksSnoc(init: seq<Message>, last: Message)
    ensures MessageLinks(init + [last])
         == MessageLinks(init) + (if JoinUrls(last.attachments) == "" then [] else [JoinUrls(last.attachments)])
  {
    MessageLinksAppend(init, [last]);
    assert [last][1..] == [];
  }

  /** Each returned string is the joined URLs of the message at the matching kept position, in message order. */
  lemma {:induction false} MessageLinksAsKept(ms: seq<Message>)
    ensures |MessageLinks(ms)| == |Kept(ms)|
    ensures forall k :: 0 <= k < |Kept(ms)| ==> Kept(ms)[k] < |ms| && MessageLinks(ms)[k] == JoinUrls(ms[Kept(ms)[k]].attachments)
  {
    KeptBound(ms);
    if ms != [] {
      var init, last := ms[..|ms| - 1], ms[|ms| - 1];
      var s := JoinUrls(last.attachments);
      MessageLinksAsKept(init);
      assert ms == init + [last];
      MessageLinksSnoc(init, last);
      var links, kept := MessageLinks(ms), Kept(ms);
      assert kept == Kept(init) + (if s == "" then [] else [|ms| - 1]);
      assert links == MessageLinks(init) + (if s == "" then [] else [s]);
      forall k | 0 <= k < |kept|
        ensures links[k] == JoinUrls(ms[kept[k]].attachments)
      {
        if k < |Kept(init)| {
          assert kept[k] == Kept(init)[k] && links[k] == MessageLinks(init)[k];
          assert init[Kept(init)[k]] == ms[Kept(init)[k]];
        }
      }
    }
  }

  /** Number of messages whose joined URLs are non-empty. */
  function NonEmptyCount(ms: seq<Message>): nat
  {
    if ms == [] then 0
    else (if JoinUrls(ms[0].attachments) == "" then 0 else 1) + NonEmptyCount(ms[1..])
  }

  /** A message contributes one string exactly when it has a non-empty URL, so the output length is that count. */
  lemma {:induction false} MessageLinksLength(ms: seq<Message>)
    ensures |MessageLinks(ms)| == NonEmptyCount(ms)
  {
    if ms != [] {
      MessageLinksLength(ms[1..]);
    }
  }

  // ---------------------------------------------------------------------
  // gen_links
  // ---------------------------------------------------------------------

  /** All threads have a parent; `unwrap` on a missing parent id panics. */
  predicate AllParented(ts: seq<Thread>)
  {
    forall i :: 0 <= i < |ts| ==> ts[i].parentId.Some?
  }

  /** The active threads whose parent is the forum, in listing order. */
  function InForum(active: seq<Thread>, forum: nat): (r: seq<Thread>)
    requires AllParented(active)
    ensures |r| <= |active|
    ensures forall k :: 0 <= k < |r| ==> r[k].parentId == Some(forum)
  {
    if active == [] then []
    else (if active[0].parentId.value == forum then [active[0]] else []) + InForum(active[1..], forum)
  }

  /** Filtering is split by splitting the listing. */
  lemma {:induction false} InForumAppend(a: seq<Thread>, b: seq<Thread>, forum: nat)
    requires AllParented(a) && AllParented(b)
    ensures AllParented(a + b)
    ensures InForum(a + b, forum) == InForum(a, forum) + InForum(b, forum)
  {
    if a == [] {
      assert a + b == b;
    } else {
      assert (a + b)[1..] == a[1..] + b;
      InForumAppend(a[1..], b, forum);
    }
  }

  /** The threads `gen_links` scans: every archived thread, then the active threads of the forum. */
  function Selected(archived: seq<Thread>, active: seq<Thread>, forum: nat): seq<Thread>
    requires AllParented(active)
  {
    archived + InForum(active, forum)
  }

  /** No deduplication: a thread is scanned once per archived occurrence, plus once per active occurrence when its parent is the forum. */
  lemma {:induction false} SelectedCount(archived: seq<Thread>, active: seq<Thread>, forum: nat, t: Thread)
    requires AllParented(active)
    ensures multiset(Selected(archived, active, forum))[t]
         == multiset(archived)[t] + (if t.parentId == Some(forum) then multiset(active)[t] else 0)
    ensures t in Selected(archived, active, forum) <==> t in archived || (t in active && t.parentId == Some(forum))
  {
    InForumCount(active, forum, t);
  }

  /** Filtering keeps every occurrence of a thread of the forum and no occurrence of any other thread. */
  lemma {:induction false} InForumCount(active: seq<Thread>, forum: nat, t: Thread)
    requires AllParented(active)
    ensures multiset(InForum(active, forum))[t] == if t.parentId == Some(forum) then multiset(active)[t] else 0
  {
    if active != [] {
      InForumCount(active[1..], forum, t);
      assert active == [active[0]] + active[1..];
    }
  }

  /** The links of a list of threads, thread after thread. */
  function LinksOf(ts: seq<Thread>): (r: seq<string>)
    ensures forall k :: 0 <= k < |r| ==> r[k] != ""
  {
    if ts == [] then [] else GetAttachments(ts[0]) + LinksOf(ts[1..])
  }

  /** The links of two thread lists in a row are the links of the first followed by those of the second. */
  lemma {:induction false} LinksOfAppend(a: seq<Thread>, b: seq<Thread>)
    ensures LinksOf(a + b) == LinksOf(a) + LinksOf(b)
  {
    if a == [] {
      assert a + b == b;
    } else {
      assert (a + b)[1..] == a[1..] + b;
      LinksOfAppend(a[1..], b);
    }
  }

  /** Sum of the per-thread result lengths. */
  function TotalLinks(ts: seq<Thread>): nat
  {
    if ts == [] then 0 else |GetAttachments(ts[0])| + TotalLinks(ts[1..])
  }

  /** The output length is the sum of the per-thread result lengths; nothing is merged or dropped. */
  lemma {:induction false} LinksOfLength(ts: seq<Thread>)
    ensures |LinksOf(ts)| == TotalLinks(ts)
  {
    if ts != [] {
      LinksOfLength(ts[1..]);
    }
  }

  /** The i-th thread's links sit, unchanged and contiguous, between the links of the threads before and after it. */
  lemma {:induction false} LinksOfAt(ts: seq<Thread>, i: nat)
    requires i < |ts|
    ensures LinksOf(ts) == LinksOf(ts[..i]) + GetAttachments(ts[i]) + LinksOf(ts[i + 1..])
  {
    assert ts == ts[..i] + ([ts[i]] + ts[i + 1..]);
    LinksOfAppend(ts[..i], [ts[i]] + ts[i + 1..]);
    assert ([ts[i]] + ts[i + 1..])[1..] == ts[i + 1..];
  }

  /** One more thread appends exactly its own links. */
  lemma LinksOfSnoc(ts: seq<Thread>, t: Thread)
    ensures LinksOf(ts + [t]) == LinksOf(ts) + GetAttachments(t)
  {
    LinksOfAppend(ts, [t]);
    assert [t][1..] == [];
  }

  /**
   * `gen_links`: walk the chained thread iterator (every archived thread,
   * then the active threads whose parent is the forum) and append each
   * thread's links to `urls`.
   */
  method GenLinks(archived: seq<Thread>, active: seq<Thread>, forum: nat) returns (urls: seq<string>)
    requires AllParented(active)
    ensures urls == LinksOf(archived) + LinksOf(InForum(active, forum))
    ensures urls == LinksOf(Selected(archived, active, forum))
    ensures |urls| == TotalLinks(archived) + TotalLinks(InForum(active, forum))
  {
    var threads := Selected(archived, active, forum);
    urls := [];
    for i := 0 to |threads|
      invariant urls == LinksOf(threads[..i])
    {
      assert LinksOf(threads[..i + 1]) == urls + GetAttachments(threads[i]) by {
        assert threads[..i + 1] == threads[..i] + [threads[i]];
        LinksOfSnoc(threads[..i], threads[i]);
      }
      urls := urls + GetAttachments(threads[i]);
    }
    assert threads[..|threads|] == threads;
    LinksOfAppend(archived, InForum(active, forum));
    LinksOfLength(archived);
    LinksOfLength(InForum(active, forum));
  }
}
