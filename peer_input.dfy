/**
 * The two ways the chat list accepts a peer's public key
 * (src/ui/ChatList.tsx): the "Start" button, which reads the text field,
 * and the QR scanner's result callback.
 *
 * The NIP-19 bech32 decoder (`nip19.decode` of nostr-tools) and
 * `bytesToHex` are not part of this model: every operation takes them as
 * parameters. A decoder call either throws or yields its `data` field,
 * which is a string or a byte array.
 */
module PeerInput {
  import opened Wrappers
  import opened JsText

  datatype DecodeResult =
    | Threw                        // `nip19.decode` raised an exception
    | HexData(hex: string)         // `dec.data` is a string
    | ByteData(bytes: seq<bv8>)    // `dec.data` is a Uint8Array

  type Decoder = string -> DecodeResult
  type HexEncoder = seq<bv8> -> string

  const NpubPrefix := "npub"
  const PubkeyLength := 64

  /** A character of the class `[0-9a-fA-F]`. */
  predicate IsHexDigit(c: char) {
    '0' <= c <= '9' || 'a' <= c <= 'f' || 'A' <= c <= 'F'
  }

  /**
   * The test `/^[0-9a-fA-F]{64}$/`: exactly 64 hex digits of either case.
   * Such a string has nothing for `trim` to remove and never takes the
   * `npub` branch.
   */
  function IsPubkeyHex(s: string): (r: bool)
    ensures r ==> |s| == PubkeyLength && IsTrimmed(s) && !StartsWith(s, NpubPrefix)
  {
    var ok := |s| == PubkeyLength && forall i :: 0 <= i < |s| ==> IsHexDigit(s[i]);
    assert ok ==> IsHexDigit(s[..4][0]);
    ok
  }

  /** What a successful decode contributes: the string data, or the hex of the bytes. */
  function DecodedText(d: DecodeResult, toHex: HexEncoder): (r: Option<string>)
    ensures r == None <==> d == Threw
    ensures d.HexData? ==> r == Some(d.hex)
    ensures d.ByteData? ==> r == Some(toHex(d.bytes))
  {
    match d
    case Threw => None
    case HexData(h) => Some(h)
    case ByteData(b) => Some(toHex(b))
  }

  /**
   * The candidate the Start handler tests: the trimmed input itself, unless
   * it starts with `npub` and decodes, in which case the decoded key. A
   * decoder exception is swallowed and leaves the candidate as it was.
   */
  function StartCandidate(pk: string, decode: Decoder, toHex: HexEncoder): (c: string)
    ensures !StartsWith(pk, NpubPrefix) ==> c == pk
    ensures StartsWith(pk, NpubPrefix) && decode(pk) == Threw ==> c == pk
    ensures StartsWith(pk, NpubPrefix) && decode(pk) != Threw ==> Some(c) == DecodedText(decode(pk), toHex)
  {
    if StartsWith(pk, NpubPrefix) then
      match DecodedText(decode(pk), toHex)
      case None => pk
      case Some(h) => h
    else pk
  }

  /** What pressing "Start" does. */
  datatype StartOutcome =
    | Ignored               // empty field: nothing happens
    | InvalidPubkey         // `alert('Invalid pubkey')`; selection and field unchanged
    | SelectPeer(pk: string)  // `selectPeer(pk)`, then the field is cleared

  /** The "Start" button handler. */
  function Start(input: string, decode: Decoder, toHex: HexEncoder): (o: StartOutcome)
    ensures o == Ignored <==> Trim(input) == []
    ensures o.SelectPeer? ==> IsPubkeyHex(o.pk)
  {
    var pk := Trim(input);
    if pk == [] then Ignored
    else
      var c := StartCandidate(pk, decode, toHex);
      if IsPubkeyHex(c) then SelectPeer(c) else InvalidPubkey
  }

  /**
   * The QR scanner's result handler: the scanned text is used only when it
   * starts with `npub`, decodes, and the decoded key is 64 hex digits.
   * The text is not trimmed. The scanner is closed in every case.
   */
  function ScanResult(text: string, decode: Decoder, toHex: HexEncoder): (selected: Option<string>)
    ensures selected.Some? ==> IsPubkeyHex(selected.value) && StartsWith(text, NpubPrefix)
  {
    if StartsWith(text, NpubPrefix) then
      match DecodedText(decode(text), toHex)
      case None => None
      case Some(pk) => if IsPubkeyHex(pk) then Some(pk) else None
    else None
  }

  // ---------------------------------------------------------------------
  // Properties

  /** A hex key never starts with `npub`: its first character is not a hex digit. */
  lemma PubkeyHexIsNotNpub(s: string)
    requires IsPubkeyHex(s)
    ensures !StartsWith(s, NpubPrefix)
  {
    assert IsHexDigit(s[..4][0]);
  }

  /** A peer is selected exactly when the candidate is 64 hex digits, and it is the candidate verbatim. */
  lemma StartSelectsExactlyCandidate(input: string, decode: Decoder, toHex: HexEncoder, pk: string)
    ensures Start(input, decode, toHex) == SelectPeer(pk)
        <==> Trim(input) != [] && StartCandidate(Trim(input), decode, toHex) == pk && IsPubkeyHex(pk)
  {
  }

  /** Whitespace-only input neither selects a peer nor raises the alert. */
  lemma StartIgnoresBlank(input: string, decode: Decoder, toHex: HexEncoder)
    requires AllWhitespace(input)
    ensures Start(input, decode, toHex) == Ignored
  {
    TrimEmptyIff(input);
  }

  /** An `npub` input whose decoding throws is rejected: the candidate still starts with `n`. */
  lemma StartRejectsUndecodable(input: string, decode: Decoder, toHex: HexEncoder)
    requires StartsWith(Trim(input), NpubPrefix)
    requires decode(Trim(input)) == Threw
    ensures Start(input, decode, toHex) == InvalidPubkey
  {
    var pk := Trim(input);
    if IsPubkeyHex(pk) {
      PubkeyHexIsNotNpub(pk);
    }
  }

  /** Raw hex, surrounded by any whitespace, is selected as it stands once trimmed; its case is kept. */
  lemma StartAcceptsRawHex(input: string, decode: Decoder, toHex: HexEncoder)
    requires IsPubkeyHex(Trim(input))
    ensures Start(input, decode, toHex) == SelectPeer(Trim(input))
  {
    PubkeyHexIsNotNpub(Trim(input));
  }

  /** The scanner selects only decoded `npub` text whose key is 64 hex digits. */
  lemma ScanSelectsOnlyDecodedNpub(text: string, decode: Decoder, toHex: HexEncoder, pk: string)
    ensures ScanResult(text, decode, toHex) == Some(pk)
        <==> StartsWith(text, NpubPrefix) && DecodedText(decode(text), toHex) == Some(pk) && IsPubkeyHex(pk)
  {
  }

  /** An `npub` input that decodes to a 64-hex-digit key selects that key, as decoded. */
  lemma StartAcceptsDecodedNpub(input: string, decode: Decoder, toHex: HexEncoder, k: string)
    requires StartsWith(Trim(input), NpubPrefix)
    requires DecodedText(decode(Trim(input)), toHex) == Some(k)
    requires IsPubkeyHex(k)
    ensures Start(input, decode, toHex) == SelectPeer(k)
  {
  }

  /** Scanned raw hex changes nothing, unlike the same text typed into the field. */
  lemma ScanIgnoresRawHex(text: string, decode: Decoder, toHex: HexEncoder)
    requires IsPubkeyHex(text)
    ensures ScanResult(text, decode, toHex) == None
    ensures Start(text, decode, toHex) == SelectPeer(text)
  {
    PubkeyHexIsNotNpub(text);
    TrimTrimmed(text);
  }

  /** The scanner is the narrower handler: what it selects from already-trimmed text, "Start" selects from the same text. */
  lemma ScanImpliesStart(text: string, decode: Decoder, toHex: HexEncoder)
    requires IsTrimmed(text)
    requires ScanResult(text, decode, toHex).Some?
    ensures Start(text, decode, toHex) == SelectPeer(ScanResult(text, decode, toHex).value)
  {
    TrimTrimmed(text);
  }

  /** The lower-case form of a hex digit. */
  function LowerHexDigit(c: char): (d: char)
    ensures IsHexDigit(c) ==> IsHexDigit(d) && !('A' <= d <= 'F')
  {
    if 'A' <= c <= 'F' then c - 'A' + 'a' else c
  }

  /** The lower-case form of a hex digit string. */
  function LowerHex(s: string): (r: string)
  {
    seq(|s|, i requires 0 <= i < |s| => LowerHexDigit(s[i]))
  }

  /**
   * The handler does not case-fold: the upper- and lower-case spellings of
   * one key select two different peer strings.
   */
  lemma StartKeepsCase(input: string, decode: Decoder, toHex: HexEncoder)
    requires IsPubkeyHex(input)
    requires LowerHex(input) != input
    ensures Start(LowerHex(input), decode, toHex) == SelectPeer(LowerHex(input))
    ensures Start(input, decode, toHex) != Start(LowerHex(input), decode, toHex)
  {
    var low := LowerHex(input);
    assert IsPubkeyHex(low) by {
      forall i | 0 <= i < |low| ensures IsHexDigit(low[i]) {
        assert low[i] == LowerHexDigit(input[i]);
      }
    }
    TrimTrimmed(input);
    TrimTrimmed(low);
    StartAcceptsRawHex(input, decode, toHex);
    StartAcceptsRawHex(low, decode, toHex);
  }
}
