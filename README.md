# GlobGram chat list and toasts, modelled in Dafny

This project models the logic inside two React components of the GlobGram
Nostr chat client:

- `src/ui/ChatList.tsx` — how a typed or scanned peer reference (raw hex
  public key or NIP-19 `npub`) becomes the selected peer, how the peers are
  ranked by last activity, how many messages of each peer are unread, and
  the one-line preview of a conversation's last message;
- `src/ui/Toast.tsx` — the toast notification provider: the visible list,
  the per-toast dismissal timers, the window-wide `app:toast` event and
  the `useToast` fallback.

Modules, one concept each:

- `JsText` (`js_text.dfy`): `startsWith` and `trim` as ECMAScript defines
  them (WhiteSpace, including every Unicode space separator and U+FEFF, and
  LineTerminator).
- `PeerInput` (`peer_input.dfy`): the "Start" handler as a pure function
  `Start` returning `Ignored` (empty field), `InvalidPubkey` (the alert) or
  `SelectPeer(pk)` (the `selectPeer` call, after which the field is
  cleared); the QR handler as `ScanResult`, returning the key to select, if
  any. The NIP-19 decoder and `bytesToHex` are foreign code and are passed in
  as functions; a decoder call either throws (`Threw`) or returns string or
  byte data.
- `ChatIndex` (`chat_index.dfy`): `Peers` (stable sort of the conversation
  keys, most recent first, empty conversations counting as timestamp 0),
  `Unread` (`filter(...).length` against the watermark, a missing
  watermark counting as 0) and `Preview`.
- `Toasts` (`toast.dfy`): the class `ToastProvider` with fields `toasts`,
  `timers` (the `timerRef` dictionary; each entry records the 2200 ms delay)
  and `listening` (whether `onToast` is registered on the window); the
  timeout going off is the explicit step `Fire(id)`, which only a pending
  timer can take. `EmitToast` and `UseToastShow` are the module-level
  entry points.

Behaviour of the code worth knowing, each pinned down by a lemma:

- The key is passed on as typed: the test `/^[0-9a-fA-F]{64}$/` accepts
  either case and nothing lower-cases the key, so upper- and lower-case
  spellings of one key select different peer strings
  (`PeerInput.StartKeepsCase`).
- A decoder exception is swallowed, the candidate stays the `npub…` text,
  and that text fails the hex test, so a decode failure ends in the same
  "Invalid pubkey" alert as any other malformed input
  (`PeerInput.StartRejectsUndecodable`).
- Equally recent conversations keep the key enumeration order, because
  `Array.prototype.sort` is stable (`ChatIndex.PeersStable`,
  `ChatIndex.PeersIsTheStableSort`).
- A message with neither text nor attachments is previewed from the older
  single `attachment` field before falling back to an empty string
  (`ChatIndex.LegacyPreview`).

Modelling notes: `dismiss` tests `timerRef.current[id]` for truthiness;
browser timer handles are positive integers, so the model tests whether the
key is present. The `dismiss` and `show` closures captured by the timer and
by the window listener are those of an earlier render, but they only use
functional state updates and the ref, so they act on the current state as
the model's methods do.

## Model

| member | source | states |
|---|---|---|
| `JsText.StartsWith` | src/ui/ChatList.tsx:36 | `s.startsWith(p)`: `p` is a prefix of `s`, character by character |
| `JsText.LeadingWhitespace` | src/ui/ChatList.tsx:33 | the count covers only whitespace and stops at the first non-whitespace character |
| `JsText.TrailingWhitespace` | src/ui/ChatList.tsx:33 | the count covers only trailing whitespace and stops at the last non-whitespace character |
| `JsText.Trim` | src/ui/ChatList.tsx:33 | `trim` returns the contiguous middle of the input with no whitespace at either end and only whitespace cut off on each side |
| `JsText.TrimEmptyIff` | src/ui/ChatList.tsx:33-34 | the trimmed input is empty exactly when the input is all whitespace |
| `JsText.TrimTrimmed` | src/ui/ChatList.tsx:33 | trimming a string without surrounding whitespace returns it unchanged |
| `JsText.TrimIdempotent` | src/ui/ChatList.tsx:33 | trimming twice equals trimming once |
| `PeerInput.DecodedText` | src/ui/ChatList.tsx:37-38 | a decode yields a candidate exactly when it does not throw: string data verbatim, byte data through `bytesToHex` |
| `PeerInput.IsPubkeyHex` | src/ui/ChatList.tsx:41 | an accepted key is exactly 64 characters, has nothing for `trim` to remove and never starts with `npub` |
| `PeerInput.StartCandidate` | src/ui/ChatList.tsx:35-40 | input not starting with `npub`, or whose decoding throws, stays the candidate unchanged; an `npub` input that decodes is replaced by the decoded text |
| `PeerInput.Start` | src/ui/ChatList.tsx:32-44 | the handler does nothing exactly when the trimmed input is empty, and only ever selects a 64-hex-digit key |
| `PeerInput.ScanResult` | src/ui/ChatList.tsx:48-57 | the QR handler selects only a 64-hex-digit key, and only for text starting with `npub` |
| `PeerInput.PubkeyHexIsNotNpub` | src/ui/ChatList.tsx:36-41 | a 64-hex-digit key never takes the `npub` branch |
| `PeerInput.StartSelectsExactlyCandidate` | src/ui/ChatList.tsx:33-42 | a peer is selected iff the trimmed input is non-empty and its candidate is 64 hex digits, and the selected key is that candidate verbatim |
| `PeerInput.StartIgnoresBlank` | src/ui/ChatList.tsx:33-34 | whitespace-only input neither selects nor alerts |
| `PeerInput.StartRejectsUndecodable` | src/ui/ChatList.tsx:35-41 | an `npub` input whose decoding throws ends in the "Invalid pubkey" alert, the selection untouched |
| `PeerInput.StartAcceptsRawHex` | src/ui/ChatList.tsx:33-42 | input that trims to 64 hex digits selects exactly the trimmed text |
| `PeerInput.StartAcceptsDecodedNpub` | src/ui/ChatList.tsx:35-42 | an `npub` input that decodes to 64 hex digits selects the decoded key, as decoded |
| `PeerInput.ScanSelectsOnlyDecodedNpub` | src/ui/ChatList.tsx:51-54 | the scanner selects `pk` iff the text starts with `npub`, decodes to `pk`, and `pk` is 64 hex digits |
| `PeerInput.ScanIgnoresRawHex` | src/ui/ChatList.tsx:33-54 | scanned raw hex selects nothing, while the same text typed and started is selected |
| `PeerInput.ScanImpliesStart` | src/ui/ChatList.tsx:33-54 | whatever the scanner selects from already-trimmed text, "Start" selects from the same text |
| `PeerInput.StartKeepsCase` | src/ui/ChatList.tsx:41-42 | the key is not case-folded: upper- and lower-case spellings of one key select different peers |
| `ChatIndex.InsertPermutes` | src/ui/ChatList.tsx:20-24 | one insertion step of the sort adds exactly that key, losing and duplicating none |
| `ChatIndex.InsertKeepsOrder` | src/ui/ChatList.tsx:20-24 | inserting into a most-recent-first list keeps it most recent first |
| `ChatIndex.Last` | src/ui/ChatList.tsx:65 | the last message of a non-empty conversation: one of its messages, the one at its end |
| `ChatIndex.LastActivity` | src/ui/ChatList.tsx:21-22 | the sort key is the timestamp of the conversation's last message, and 0 for an empty or missing conversation |
| `ChatIndex.Peers` | src/ui/ChatList.tsx:18-25 | the ranking is a permutation of the keys, in non-increasing order of last-message timestamp, an empty conversation counting as 0 |
| `ChatIndex.PeersStable` | src/ui/ChatList.tsx:20-24 | peers with equal last activity appear in their key order (the sort is stable) |
| `ChatIndex.StableOrderUnique` | src/ui/ChatList.tsx:20-24 | two most-recent-first orders that agree on the order within each activity level are equal |
| `ChatIndex.PeersIsTheStableSort` | src/ui/ChatList.tsx:18-25 | any most-recent-first order that is stable with respect to the keys is the ranking |
| `ChatIndex.PeersListsEveryConversation` | src/ui/ChatList.tsx:19-24 | when the keys enumerate the conversation map, every conversation is listed exactly once |
| `ChatIndex.PeersExample` | src/ui/ChatList.tsx:18-25 | `{A: [ts 5], B: [ts 10], C: []}` ranks as B, A, C |
| `ChatIndex.Watermark` | src/ui/ChatList.tsx:67 | the watermark is the stored last-read timestamp, and 0 when none is stored |
| `ChatIndex.Newer` | src/ui/ChatList.tsx:67 | the filter keeps only messages of the conversation newer than the watermark, and never more than it has |
| `ChatIndex.Unread` | src/ui/ChatList.tsx:67 | the unread count lies between 0 and the number of messages |
| `ChatIndex.UnreadCountsNewer` | src/ui/ChatList.tsx:67 | the unread count equals the number of positions whose message has `ts` above the watermark |
| `ChatIndex.UnreadAllRead` | src/ui/ChatList.tsx:67 | a watermark at or above every timestamp gives 0 unread |
| `ChatIndex.UnreadNoneRead` | src/ui/ChatList.tsx:67 | a watermark below every timestamp (0 when never read) counts every message |
| `ChatIndex.UnreadAntitone` | src/ui/ChatList.tsx:67 | raising the watermark never raises the unread count |
| `ChatIndex.Classify` | src/ui/ChatList.tsx:79 | an attachment is `image` iff it starts with `data:image/`, `video` iff it starts with `data:video/`, otherwise `audio` |
| `ChatIndex.PrefixesExclusive` | src/ui/ChatList.tsx:79 | no attachment has both prefixes, so the classification is unambiguous |
| `ChatIndex.Kinds` | src/ui/ChatList.tsx:79 | exactly one kind per attachment, in attachment order |
| `ChatIndex.Labels` | src/ui/ChatList.tsx:79 | one label per attachment, in order, each the name of its classification |
| `ChatIndex.Join` | src/ui/ChatList.tsx:79 | `join(', ')`: empty for no labels, the label itself for one, otherwise the first label, `, ` and the join of the rest |
| `ChatIndex.AttachmentsPreview` | src/ui/ChatList.tsx:78-79 | the attachment preview is bracketed and reads back as exactly the attachments' kinds, in order |
| `ChatIndex.LegacyPreview` | src/ui/ChatList.tsx:80 | the legacy field previews as empty exactly when it is missing or empty |
| `ChatIndex.Preview` | src/ui/ChatList.tsx:77-80 | a non-empty text is the preview verbatim; otherwise a non-empty attachment list gives the bracketed labels; otherwise the legacy `attachment` field decides |
| `ChatIndex.LastPreview` | src/ui/ChatList.tsx:75-80 | a preview is shown exactly when the conversation has a last message |
| `ChatIndex.ParseJoin` | src/ui/ChatList.tsx:79 | the comma-joined labels read back as the original kinds |
| `ChatIndex.AttachmentsPreviewRoundTrip` | src/ui/ChatList.tsx:77-79 | without text, the preview is a bracketed list with exactly one label per attachment, in order |
| `ChatIndex.LegacyMatchesAttachments` | src/ui/ChatList.tsx:79-80 | a non-empty legacy attachment previews as a one-element attachment list would |
| `ChatIndex.PreviewExample` | src/ui/ChatList.tsx:77-79 | an image and an audio attachment preview as `[image, audio]` |
| `Toasts.BgFor` | src/ui/Toast.tsx:33 | `success` is `#2e7d32`, `error` is `#c62828`, anything else `rgba(0,0,0,0.85)` |
| `Toasts.BgForInjective` | src/ui/Toast.tsx:33 | different variants get different colours |
| `Toasts.VariantOrDefault` | src/ui/Toast.tsx:27 | a given variant is kept and a missing one becomes `info` |
| `Toasts.WithoutId` | src/ui/Toast.tsx:20 | the filter keeps exactly the toasts with another id |
| `Toasts.WithoutIdAppend` | src/ui/Toast.tsx:20 | the filter distributes over concatenation, so kept toasts keep their relative order |
| `Toasts.WithoutAbsentId` | src/ui/Toast.tsx:19-24 | dismissing an unknown id leaves the list unchanged |
| `Toasts.WithoutIdIdempotent` | src/ui/Toast.tsx:19-24 | dismissing twice equals dismissing once |
| `Toasts.WithoutIdDistinct` | src/ui/Toast.tsx:20 | the filter keeps ids distinct |
| `Toasts.WithoutPresentId` | src/ui/Toast.tsx:20 | with distinct ids, dismissing a visible toast removes exactly one |
| `Toasts.ToastPayload` | src/ui/Toast.tsx:37-42 | an event is forwarded iff `detail` is present and `detail.text` is a string, with `show`'s default variant `info` |
| `Toasts.ToastProvider.constructor` | src/ui/Toast.tsx:15-17 | the provider starts with no toasts, no timers and no listener |
| `Toasts.ToastProvider.Subscribe` | src/ui/Toast.tsx:36-44 | registering the listener changes neither toasts nor timers |
| `Toasts.ToastProvider.Unsubscribe` | src/ui/Toast.tsx:45 | removing the listener changes neither toasts nor timers |
| `Toasts.ToastProvider.Show` | src/ui/Toast.tsx:27-31 | appends exactly one toast at the end, leaves the earlier ones as they were, registers its timer, and keeps one timer per visible toast |
| `Toasts.ToastProvider.Dismiss` | src/ui/Toast.tsx:19-25 | removes every toast with the id, keeps the rest in order, leaves no timer for the id, is a no-op for an unknown id, and keeps one timer per visible toast |
| `Toasts.ToastProvider.Fire` | src/ui/Toast.tsx:30 | a pending timer going off dismisses its toast, removing exactly one |
| `Toasts.ToastProvider.OnToast` | src/ui/Toast.tsx:37-43 | a well-formed event shows its toast; any other leaves the state unchanged |
| `Toasts.ToastProvider.Dispatch` | src/ui/Toast.tsx:11-46 | an event reaches `show` only while the listener is registered |
| `Toasts.EmitToast` | src/ui/Toast.tsx:9-13 | broadcasting shows the toast (variant defaulting to `info`) when the provider listens and is dropped otherwise |
| `Toasts.UseToastShow` | src/ui/Toast.tsx:63-66 | inside a provider it is `show`; outside one it changes nothing |

## Left out

- JSX markup, styles, the selected-row highlight and the shortened display name (`pk.slice(0, 10)`): presentation only.
- Alias editing (`prompt` and `setAlias`, line 73) and clicking a row to select it (line 69): direct calls into the contact and chat stores, with no logic of their own.
- React hook mechanics (`useMemo`, `useState`, `useEffect`, `useContext`, `useRef`): the state they hold is modelled directly.
- `nip19.decode` and `bytesToHex` are not part of this model: they are parameters. A decode yielding data that is neither a string nor bytes is not modelled.
- `alert`, the `QRScan` component and closing it (`setQrOpen(false)`, done on every scan), and the stores behind `selectPeer`: the outcome datatypes record what the handlers ask of them.
- The order of `Object.keys` is an input: JavaScript lists integer-like keys first, which no 64-hex-digit key is.
- Timestamps are integers: JavaScript numbers that are fractional or NaN are not modelled.
- `setTimeout` and `clearTimeout` with real time: a timer is a map entry and its expiry is the step `Fire`.
- `Math.random` ids: the id is an argument required to be fresh; a collision, which the code does not guard against, is not modelled.
- A `variant` in an event that is not one of the three strings (for example `null`) is not modelled: the variant type has only the three values.
- The `try`/`catch` around `dispatchEvent` and inside `onToast`: no modelled step throws.
- Strings are sequences of Unicode scalar values, while JavaScript strings are UTF-16 code units; for `trim`, `startsWith` and the hex test the two agree, since every character they inspect is a single code unit.
