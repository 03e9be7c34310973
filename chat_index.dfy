/**
 * What the chat list derives from the conversation store
 * (src/ui/ChatList.tsx): the order of the peers, each peer's unread count,
 * and the one-line preview of a conversation's last message.
 */
module ChatIndex {
  import opened Wrappers
  import opened JsText

  /** A chat message as far as the list looks at it; absent fields are `None`. */
  datatype Message = Message(
    ts: int,
    text: Option<string>,
    attachments: Option<seq<string>>,
    attachment: Option<string>)   // the older single-attachment field

  type Peer = string
  type Conversations = map<Peer, seq<Message>>

  // ---------------------------------------------------------------------
  // Ranking

  /** The most recently appended message of a conversation. */
  function Last(msgs: seq<Message>): (m: Message)
    requires msgs != []
    ensures m in msgs
    ensures m == msgs[|msgs| - 1]
  {
    msgs[|msgs| - 1]
  }

  /** `conversations[k]?.[conversations[k].length - 1]?.ts ?? 0`. */
  function LastActivity(conv: Conversations, k: Peer): (t: int)
    ensures k !in conv || conv[k] == [] ==> t == 0
    ensures k in conv && conv[k] != [] ==> t == Last(conv[k]).ts
  {
    if k in conv && |conv[k]| > 0 then Last(conv[k]).ts else 0
  }

  /** Non-increasing last activity, as the comparator `lb - la` orders. */
  ghost predicate MostRecentFirst(s: seq<Peer>, conv: Conversations) {
    forall i, j :: 0 <= i < j < |s| ==> LastActivity(conv, s[i]) >= LastActivity(conv, s[j])
  }

  /**
   * Places `k` in front of the first peer that is not more recent, so that
   * `k` comes before the peers of equal activity that followed it.
   */
  function Insert(k: Peer, sorted: seq<Peer>, conv: Conversations): seq<Peer> {
    if sorted == [] || LastActivity(conv, sorted[0]) <= LastActivity(conv, k) then [k] + sorted
    else [sorted[0]] + Insert(k, sorted[1..], conv)
  }

  /** Inserting adds exactly the one key. */
  lemma {:induction false} InsertPermutes(k: Peer, sorted: seq<Peer>, conv: Conversations)
    ensures multiset(Insert(k, sorted, conv)) == multiset(sorted) + multiset{k}
  {
    if sorted != [] && LastActivity(conv, sorted[0]) > LastActivity(conv, k) {
      InsertPermutes(k, sorted[1..], conv);
      assert sorted == [sorted[0]] + sorted[1..];
    }
  }

  /** Inserting into a most-recent-first list keeps it most recent first. */
  lemma {:induction false} InsertKeepsOrder(k: Peer, sorted: seq<Peer>, conv: Conversations)
    requires MostRecentFirst(sorted, conv)
    ensures MostRecentFirst(Insert(k, sorted, conv), conv)
  {
    if sorted != [] && LastActivity(conv, sorted[0]) > LastActivity(conv, k) {
      var rest := Insert(k, sorted[1..], conv);
      InsertKeepsOrder(k, sorted[1..], conv);
      InsertPermutes(k, sorted[1..], conv);
      forall j | 0 <= j < |rest| ensures LastActivity(conv, sorted[0]) >= LastActivity(conv, rest[j]) {
        assert rest[j] in multiset(rest);
        if rest[j] != k {
          assert rest[j] in multiset(sorted[1..]);
          var i :| 0 <= i < |sorted[1..]| && sorted[1..][i] == rest[j];
          assert sorted[i + 1] == rest[j];
        }
      }
      assert Insert(k, sorted, conv) == [sorted[0]] + rest;
    }
  }

  /**
   * The `peers` list: `Object.keys(conversations)` (given here as `keys`,
   * in the object's enumeration order) sorted by `Array.prototype.sort`,
   * which is stable, so that peers of equal activity keep their key order.
   */
  function Peers(keys: seq<Peer>, conv: Conversations): (r: seq<Peer>)
    ensures multiset(r) == multiset(keys)
    ensures MostRecentFirst(r, conv)
  {
    if keys == [] then []
    else
      var rest := Peers(keys[1..], conv);
      InsertPermutes(keys[0], rest, conv);
      InsertKeepsOrder(keys[0], rest, conv);
      assert keys == [keys[0]] + keys[1..];
      Insert(keys[0], rest, conv)
  }

  /** The peers of `s` whose last activity is `t`, in their order in `s`. */
  function ActiveAt(s: seq<Peer>, conv: Conversations, t: int): (r: seq<Peer>)
    ensures forall p :: p in r ==> p in s && LastActivity(conv, p) == t
  {
    if s == [] then []
    else (if LastActivity(conv, s[0]) == t then [s[0]] else []) + ActiveAt(s[1..], conv, t)
  }

  /** Inserting `k` adds it to its own activity level only, in front of the peers already there. */
  lemma {:induction false} ActiveAtInsert(k: Peer, sorted: seq<Peer>, conv: Conversations, t: int)
    ensures ActiveAt(Insert(k, sorted, conv), conv, t)
         == (if LastActivity(conv, k) == t then [k] else []) + ActiveAt(sorted, conv, t)
  {
    var head := if LastActivity(conv, k) == t then [k] else [];
    if sorted == [] || LastActivity(conv, sorted[0]) <= LastActivity(conv, k) {
      var r := [k] + sorted;
      assert Insert(k, sorted, conv) == r;
      assert r[0] == k && r[1..] == sorted;
      assert ActiveAt(r, conv, t) == head + ActiveAt(sorted, conv, t);
    } else {
      var s0 := sorted[0];
      var rest := Insert(k, sorted[1..], conv);
      var mid := if LastActivity(conv, s0) == t then [s0] else [];
      assert ActiveAt(Insert(k, sorted, conv), conv, t) == mid + ActiveAt(rest, conv, t) by {
        assert Insert(k, sorted, conv) == [s0] + rest;
        assert ([s0] + rest)[0] == s0 && ([s0] + rest)[1..] == rest;
      }
      assert ActiveAt(sorted, conv, t) == mid + ActiveAt(sorted[1..], conv, t);
      ActiveAtInsert(k, sorted[1..], conv, t);
      assert mid == [] || head == [];
    }
  }

  /** The ranking is stable: peers of equal last activity appear in key order. */
  lemma {:induction false} PeersStable(keys: seq<Peer>, conv: Conversations, t: int)
    ensures ActiveAt(Peers(keys, conv), conv, t) == ActiveAt(keys, conv, t)
  {
    if keys != [] {
      PeersStable(keys[1..], conv, t);
      ActiveAtInsert(keys[0], Peers(keys[1..], conv), conv, t);
    }
  }

  /** The first peer heads the list of its own activity level. */
  lemma {:induction false} ActiveAtHead(s: seq<Peer>, conv: Conversations)
    requires s != []
    ensures ActiveAt(s, conv, LastActivity(conv, s[0])) == [s[0]] + ActiveAt(s[1..], conv, LastActivity(conv, s[0]))
  {
  }

  /** Every peer's activity level is non-empty. */
  lemma {:induction false} ActiveAtEmpty(s: seq<Peer>, conv: Conversations, j: nat)
    requires j < |s|
    ensures ActiveAt(s, conv, LastActivity(conv, s[j])) != []
  {
    if j > 0 {
      ActiveAtEmpty(s[1..], conv, j - 1);
    }
  }

  /**
   * A most-recent-first order that keeps equal-activity peers in a given
   * order is unique; so `Peers` is what any stable sort by the comparator
   * `lb - la` returns.
   */
  lemma {:induction false} StableOrderUnique(r1: seq<Peer>, r2: seq<Peer>, conv: Conversations)
    requires MostRecentFirst(r1, conv) && MostRecentFirst(r2, conv)
    requires forall t :: ActiveAt(r1, conv, t) == ActiveAt(r2, conv, t)
    ensures r1 == r2
    decreases |r1| + |r2|
  {
    if r1 == [] || r2 == [] {
      if r1 != [] {
        ActiveAtEmpty(r1, conv, 0);
      } else if r2 != [] {
        ActiveAtEmpty(r2, conv, 0);
      }
    } else {
      var t1, t2 := LastActivity(conv, r1[0]), LastActivity(conv, r2[0]);
      ActiveAtHead(r1, conv);
      ActiveAtHead(r2, conv);
      assert ActiveAt(r1, conv, t1)[0] in r2;
      assert ActiveAt(r2, conv, t2)[0] in r1;
      assert t1 == t2 by {
        var i :| 0 <= i < |r2| && r2[i] == r1[0];
        var j :| 0 <= j < |r1| && r1[j] == r2[0];
        assert t1 <= t2 && t2 <= t1;
      }
      assert r1[0] == r2[0];
      forall t ensures ActiveAt(r1[1..], conv, t) == ActiveAt(r2[1..], conv, t) {
        var a1, a2 := ActiveAt(r1[1..], conv, t), ActiveAt(r2[1..], conv, t);
        var h := if t == t1 then [r1[0]] else [];
        assert ActiveAt(r1, conv, t) == h + a1;
        assert ActiveAt(r2, conv, t) == h + a2;
        assert (h + a1)[|h|..] == a1 && (h + a2)[|h|..] == a2;
      }
      StableOrderUnique(r1[1..], r2[1..], conv);
      assert r1 == [r1[0]] + r1[1..] && r2 == [r2[0]] + r2[1..];
    }
  }

  /** The ranking is the one most-recent-first order that is stable with respect to `keys`. */
  lemma PeersIsTheStableSort(keys: seq<Peer>, conv: Conversations, r: seq<Peer>)
    requires MostRecentFirst(r, conv)
    requires forall t :: ActiveAt(r, conv, t) == ActiveAt(keys, conv, t)
    ensures r == Peers(keys, conv)
  {
    forall t ensures ActiveAt(r, conv, t) == ActiveAt(Peers(keys, conv), conv, t) {
      PeersStable(keys, conv, t);
    }
    StableOrderUnique(r, Peers(keys, conv), conv);
  }

  /**
   * When `keys` enumerates the conversation map, the ranking lists every
   * conversation exactly once.
   */
  lemma PeersListsEveryConversation(keys: seq<Peer>, conv: Conversations)
    requires forall i, j :: 0 <= i < j < |keys| ==> keys[i] != keys[j]
    requires forall k :: k in keys <==> k in conv
    ensures |Peers(keys, conv)| == |conv|
    ensures forall k :: k in Peers(keys, conv) <==> k in conv
  {
    var r := Peers(keys, conv);
    assert |r| == |multiset(r)| == |multiset(keys)| == |keys|;
    forall k ensures k in r <==> k in keys {
      assert k in r <==> k in multiset(r);
    }
    DistinctKeysCount(keys, conv.Keys);
  }

  /** A duplicate-free enumeration of a set is as long as the set is large. */
  lemma {:induction false} DistinctKeysCount(keys: seq<Peer>, ks: set<Peer>)
    requires forall i, j :: 0 <= i < j < |keys| ==> keys[i] != keys[j]
    requires forall k :: k in keys <==> k in ks
    ensures |keys| == |ks|
  {
    if keys != [] {
      var rest := keys[1..];
      assert keys[0] !in rest;
      assert forall k :: k in rest <==> k in ks - {keys[0]};
      DistinctKeysCount(rest, ks - {keys[0]});
    }
  }

  /** `{A: [ts 5], B: [ts 10], C: []}` is listed as B, A, C. */
  lemma PeersExample()
    ensures Peers(["A", "B", "C"],
                  map["A" := [Message(5, None, None, None)],
                      "B" := [Message(10, None, None, None)],
                      "C" := []]) == ["B", "A", "C"]
  {
    var conv := map["A" := [Message(5, None, None, None)],
                     "B" := [Message(10, None, None, None)],
                     "C" := []];
    assert LastActivity(conv, "A") == 5 by {
      assert Last(conv["A"]) == Message(5, None, None, None);
    }
    assert LastActivity(conv, "B") == 10 by {
      assert Last(conv["B"]) == Message(10, None, None, None);
    }
    assert LastActivity(conv, "C") == 0;
    assert Peers(["C"], conv) == ["C"] by {
      assert ["C"][1..] == [];
      assert Insert("C", [], conv) == ["C"];
    }
    assert Peers(["B", "C"], conv) == ["B", "C"] by {
      assert ["B", "C"][1..] == ["C"];
      assert Insert("B", ["C"], conv) == ["B", "C"];
    }
    assert Insert("A", ["B", "C"], conv) == ["B", "A", "C"] by {
      assert ["B", "C"][1..] == ["C"];
      assert Insert("A", ["C"], conv) == ["A", "C"];
    }
    assert ["A", "B", "C"][1..] == ["B", "C"];
  }

  // ---------------------------------------------------------------------
  // Unread count

  /** `lastRead[pk] || 0`: a missing watermark reads as 0. */
  function Watermark(lastRead: map<Peer, int>, pk: Peer): (w: int)
    ensures pk !in lastRead ==> w == 0
    ensures pk in lastRead ==> w == lastRead[pk]
  {
    if pk in lastRead then lastRead[pk] else 0
  }

  /** `msgs.filter(m => m.ts > w)`. */
  function Newer(msgs: seq<Message>, w: int): (r: seq<Message>)
    ensures |r| <= |msgs|
    ensures forall m :: m in r ==> m in msgs && m.ts > w
  {
    if msgs == [] then []
    else
      var last := msgs[|msgs| - 1];
      Newer(msgs[..|msgs| - 1], w) + (if last.ts > w then [last] else [])
  }

  /** The unread badge of peer `pk`. */
  function Unread(msgs: seq<Message>, lastRead: map<Peer, int>, pk: Peer): (n: nat)
    ensures n <= |msgs|
  {
    |Newer(msgs, Watermark(lastRead, pk))|
  }

  /** The positions of the messages newer than `w` among the first `n`. */
  ghost function NewerIndices(msgs: seq<Message>, w: int, n: nat): set<nat> {
    set i: nat | i < n && i < |msgs| && msgs[i].ts > w
  }

  /** The unread count is the number of positions holding a message newer than the watermark. */
  lemma {:induction false} UnreadCountsNewer(msgs: seq<Message>, w: int)
    ensures |Newer(msgs, w)| == |NewerIndices(msgs, w, |msgs|)|
  {
    if msgs != [] {
      var n := |msgs| - 1;
      var init := msgs[..n];
      UnreadCountsNewer(init, w);
      assert NewerIndices(init, w, n) == NewerIndices(msgs, w, n);
      if msgs[n].ts > w {
        assert NewerIndices(msgs, w, |msgs|) == NewerIndices(msgs, w, n) + {n};
      } else {
        assert NewerIndices(msgs, w, |msgs|) == NewerIndices(msgs, w, n);
      }
    }
  }

  /** A watermark at or above every timestamp leaves nothing unread. */
  lemma {:induction false} UnreadAllRead(msgs: seq<Message>, w: int)
    requires forall i :: 0 <= i < |msgs| ==> msgs[i].ts <= w
    ensures Newer(msgs, w) == []
  {
    if msgs != [] {
      UnreadAllRead(msgs[..|msgs| - 1], w);
    }
  }

  /** A watermark below every timestamp (0, for a peer never read) leaves everything unread. */
  lemma {:induction false} UnreadNoneRead(msgs: seq<Message>, w: int)
    requires forall i :: 0 <= i < |msgs| ==> msgs[i].ts > w
    ensures Newer(msgs, w) == msgs
  {
    if msgs != [] {
      UnreadNoneRead(msgs[..|msgs| - 1], w);
      assert msgs[..|msgs| - 1] + [msgs[|msgs| - 1]] == msgs;
    }
  }

  /** Raising the watermark never raises the unread count. */
  lemma {:induction false} UnreadAntitone(msgs: seq<Message>, w1: int, w2: int)
    requires w1 <= w2
    ensures |Newer(msgs, w2)| <= |Newer(msgs, w1)|
  {
    if msgs != [] {
      UnreadAntitone(msgs[..|msgs| - 1], w1, w2);
    }
  }

  // ---------------------------------------------------------------------
  // Preview of the last message

  /** How the list labels an attachment. */
  datatype Kind = Image | Video | Audio

  const ImagePrefix := "data:image/"
  const VideoPrefix := "data:video/"

  /** Classification by data-URI prefix; anything that is neither image nor video is audio. */
  function Classify(a: string): (k: Kind)
    ensures k == Image <==> StartsWith(a, ImagePrefix)
    ensures k == Video <==> StartsWith(a, VideoPrefix)
  {
    PrefixesExclusive(a);
    if StartsWith(a, ImagePrefix) then Image
    else if StartsWith(a, VideoPrefix) then Video
    else Audio
  }

  /** No data URI is both an image and a video. */
  lemma PrefixesExclusive(a: string)
    ensures !(StartsWith(a, ImagePrefix) && StartsWith(a, VideoPrefix))
  {
    assert StartsWith(a, ImagePrefix) ==> a[..11][5] == 'i';
    assert StartsWith(a, VideoPrefix) ==> a[..11][5] == 'v';
  }

  /** The label shown for a kind; every label has five characters. */
  function KindName(k: Kind): (name: string)
    ensures |name| == 5
  {
    match k
    case Image => "image"
    case Video => "video"
    case Audio => "audio"
  }

  /** `labels.join(', ')`. */
  function Join(parts: seq<string>): (r: string)
    ensures parts == [] ==> r == ""
    ensures |parts| == 1 ==> r == parts[0]
    ensures parts != [] ==> StartsWith(r, parts[0])
    ensures |parts| > 1 ==> r[|parts[0]|..] == ", " + Join(parts[1..])
  {
    if parts == [] then ""
    else if |parts| == 1 then parts[0]
    else parts[0] + ", " + Join(parts[1..])
  }

  /** The kind of each attachment, in order. */
  function Kinds(attachments: seq<string>): (ks: seq<Kind>)
    ensures |ks| == |attachments|
    ensures forall i :: 0 <= i < |attachments| ==> ks[i] == Classify(attachments[i])
  {
    seq(|attachments|, i requires 0 <= i < |attachments| => Classify(attachments[i]))
  }

  /** The label of each kind, in order. */
  function Names(ks: seq<Kind>): (names: seq<string>)
    ensures |names| == |ks|
    ensures forall i :: 0 <= i < |ks| ==> names[i] == KindName(ks[i])
  {
    seq(|ks|, i requires 0 <= i < |ks| => KindName(ks[i]))
  }

  /** `attachments.map(a => …)`: one label per attachment. */
  function Labels(attachments: seq<string>): (labels: seq<string>)
    ensures |labels| == |attachments|
    ensures forall i :: 0 <= i < |attachments| ==> labels[i] == KindName(Classify(attachments[i]))
  {
    Names(Kinds(attachments))
  }

  /** `[label, label, …]` for a non-empty attachment list. */
  function AttachmentsPreview(attachments: seq<string>): (p: string)
    ensures |p| >= 2 && p[0] == '[' && p[|p| - 1] == ']'
    ensures attachments != [] ==> ParseBracketed(p) == Some(Kinds(attachments))
  {
    var p := "[" + Join(Labels(attachments)) + "]";
    if attachments != [] then
      ParseJoin(Kinds(attachments));
      assert p[1..|p| - 1] == Join(Labels(attachments));
      p
    else p
  }

  /** The fallback on the older single `attachment` field; an empty one is falsy. */
  function LegacyPreview(attachment: Option<string>): (p: string)
    ensures p == "" <==> attachment.None? || attachment.value == ""
  {
    match attachment
    case None => ""
    case Some(a) =>
      if StartsWith(a, ImagePrefix) then "[image]"
      else if StartsWith(a, VideoPrefix) then "[video]"
      else if a != "" then "[audio]"
      else ""
  }

  /** The preview line: the text if non-empty, else the attachment labels, else the legacy field. */
  function Preview(m: Message): (p: string)
    ensures m.text.Some? && m.text.value != "" ==> p == m.text.value
    ensures (m.text.None? || m.text.value == "") && m.attachments.Some? && m.attachments.value != []
            ==> p == AttachmentsPreview(m.attachments.value)
    ensures (m.text.None? || m.text.value == "") && (m.attachments.None? || m.attachments.value == [])
            ==> p == LegacyPreview(m.attachment)
  {
    if m.text.Some? && m.text.value != "" then m.text.value
    else if m.attachments.Some? && |m.attachments.value| > 0 then AttachmentsPreview(m.attachments.value)
    else LegacyPreview(m.attachment)
  }

  /** The preview of a conversation is shown only when it has a last message. */
  function LastPreview(msgs: seq<Message>): (p: Option<string>)
    ensures p.Some? <==> |msgs| > 0
  {
    if msgs == [] then None else Some(Preview(Last(msgs)))
  }

  /** The label name at the start of `s`, if there is one. */
  function KindAt(s: string): (k: Option<Kind>)
    requires |s| >= 5
  {
    if s[..5] == "image" then Some(Image)
    else if s[..5] == "video" then Some(Video)
    else if s[..5] == "audio" then Some(Audio)
    else None
  }

  /** Reads the label names back from a `Join` of labels. */
  function ParseKinds(s: string): Option<seq<Kind>>
    decreases |s|
  {
    if |s| < 5 || KindAt(s) == None then None
    else if |s| == 5 then Some([KindAt(s).value])
    else if |s| >= 7 && s[5..7] == ", " then
      match ParseKinds(s[7..])
      case None => None
      case Some(ks) => Some([KindAt(s).value] + ks)
    else None
  }

  /** A label at the start of a string is read back as its kind. */
  lemma KindAtName(k: Kind, s: string)
    requires |s| >= 5 && s[..5] == KindName(k)
    ensures KindAt(s) == Some(k)
  {
    match k
    case Image =>
    case Video => assert s[..5][0] == 'v';
    case Audio => assert s[..5][0] == 'a';
  }

  /** Reads the kinds back from a bracketed preview. */
  function ParseBracketed(p: string): Option<seq<Kind>> {
    if |p| >= 2 && p[0] == '[' && p[|p| - 1] == ']' then ParseKinds(p[1..|p| - 1]) else None
  }

  lemma {:induction false} ParseJoin(ks: seq<Kind>)
    requires ks != []
    ensures ParseKinds(Join(Names(ks))) == Some(ks)
  {
    var names := Names(ks);
    var s := Join(names);
    if |ks| == 1 {
      assert s == KindName(ks[0]);
      assert s[..5] == s;
      KindAtName(ks[0], s);
      assert ks == [ks[0]];
    } else {
      assert names[1..] == Names(ks[1..]);
      ParseJoin(ks[1..]);
      assert s == KindName(ks[0]) + ", " + Join(Names(ks[1..]));
      assert s[..5] == KindName(ks[0]);
      KindAtName(ks[0], s);
      assert s[5..7] == ", ";
      assert s[7..] == Join(Names(ks[1..]));
      assert [ks[0]] + ks[1..] == ks;
    }
  }

  /**
   * A message without text previews its attachments one label per
   * attachment, in order: the kinds can be read back from the preview.
   */
  lemma AttachmentsPreviewRoundTrip(m: Message)
    requires m.text.None? || m.text.value == ""
    requires m.attachments.Some? && |m.attachments.value| > 0
    ensures ParseBracketed(Preview(m)) == Some(Kinds(m.attachments.value))
  {
    var ks := Kinds(m.attachments.value);
    ParseJoin(ks);
    var p := Preview(m);
    assert p == "[" + Join(Names(ks)) + "]";
    assert p[1..|p| - 1] == Join(Names(ks));
  }

  /**
   * The legacy field is labelled as a one-element attachment list would be;
   * an empty legacy field shows nothing.
   */
  lemma LegacyMatchesAttachments(a: string)
    requires a != ""
    ensures LegacyPreview(Some(a)) == AttachmentsPreview([a])
  {
    assert Names(Kinds([a])) == [KindName(Classify(a))];
  }

  /** `["data:image/png;…", "data:audio/ogg;…"]` previews as `[image, audio]`. */
  lemma PreviewExample()
    ensures Preview(Message(1, None, Some(["data:image/png;base64,AA", "data:audio/ogg;base64,AA"]), None))
         == "[image, audio]"
  {
    var atts := ["data:image/png;base64,AA", "data:audio/ogg;base64,AA"];
    assert Labels(atts) == ["image", "audio"] by {
      assert Classify(atts[0]) == Image by {
        assert atts[0][..|ImagePrefix|] == ImagePrefix;
      }
      assert Classify(atts[1]) == Audio by {
        assert atts[1][5] == 'a';
      }
    }
    assert AttachmentsPreview(atts) == "[image, audio]" by {
      assert ["image", "audio"][1..] == ["audio"];
    }
  }
}
