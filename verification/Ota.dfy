/** Firmware updates: which offer is acted on, what a download may install, when the floor rises. */
module Ota {
  import opened Bytes
  import opened Manifest
  import opened S = Store

  // --- the decision on a candidate -----------------------------------------------------------

  datatype Verdict = Accept | MissingMetadata | MalformedVersion | Downgrade | HwMismatch | SchemaMismatch

  datatype Candidate = Candidate(hasSecurityVersion: bool, securityVersion: long, hasHwCompat: bool, hwCompat: string,
                                 hasSchemaVersion: bool, schemaVersion: long)

  function Evaluate(c: Candidate, floor: u32, model: Option<string>, schema: long): (v: Verdict)
    ensures v == Accept <==>
      && c.hasSecurityVersion && 0 <= c.securityVersion && floor <= c.securityVersion
      && (c.hasHwCompat ==> model == Some(c.hwCompat))
      && (c.hasSchemaVersion ==> c.schemaVersion == schema)
    ensures v == MissingMetadata <==> !c.hasSecurityVersion
    ensures v == MalformedVersion <==> c.hasSecurityVersion && c.securityVersion < 0
    ensures v == Downgrade <==> c.hasSecurityVersion && 0 <= c.securityVersion < floor
    ensures v == HwMismatch ==> c.hasHwCompat && model != Some(c.hwCompat)
    ensures v == SchemaMismatch ==>
      c.hasSchemaVersion && c.schemaVersion != schema && (c.hasHwCompat ==> model == Some(c.hwCompat))
  {
    if !c.hasSecurityVersion then MissingMetadata
    else if c.securityVersion < 0 then MalformedVersion
    else if c.securityVersion < floor then Downgrade
    else if c.hasHwCompat && (model.None? || c.hwCompat != model.value) then HwMismatch
    else if c.hasSchemaVersion && c.schemaVersion != schema then SchemaMismatch
    else Accept
  }

  datatype TimeVerdict = TimeOk | Expired | NotYetValid

  /** A sum of two 32-bit signed values as the hardware adds them; C++ leaves an overflow undefined. */
  function AddLong(a: long, b: long): long
  {
    if a + b >= 0x8000_0000 then a + b - 0x1_0000_0000
    else if a + b < -0x8000_0000 then a + b + 0x1_0000_0000
    else a + b
  }

  /** Valid exactly from issue to expiry, widened by the skew; a time within the skew of the end of the
      32-bit range is refused. */
  function TimeValidity(issuedAt: long, expiresAt: long, now: long, skew: long): (v: TimeVerdict)
    ensures 0 <= issuedAt && 0 <= now && 0 <= skew ==>
      (v == TimeOk <==>
        issuedAt - skew <= now <= expiresAt + skew && expiresAt + skew < 0x8000_0000 && now + skew < 0x8000_0000)
    ensures 0 <= now && 0 <= skew ==> (v == Expired <==> now > expiresAt + skew || expiresAt + skew >= 0x8000_0000)
  {
    if now > AddLong(expiresAt, skew) then Expired
    else if issuedAt > AddLong(now, skew) then NotYetValid
    else TimeOk
  }

  // --- authenticity --------------------------------------------------------------------------

  type Digest = d: bytes | |d| == 32 witness seq(32, _ => 0)

  /** The cryptographic library and the compiled-in key: hashing, base64 decoding and verification. */
  datatype Crypto = Crypto(sha256: bytes -> Digest, sha256Text: string -> Digest, base64: string -> Option<bytes>,
                           keyParses: bool, verify: (Digest, bytes) -> bool)

  /** The signature is good for exactly this text. */
  predicate Signed(c: Crypto, text: string, signature: string)
  {
    && c.base64(signature).Some? && c.keyParses
    && c.verify(c.sha256Text(text), c.base64(signature).value)
  }

  /** A manifest as parsed: empty text or -1 where a field is missing. */
  datatype Offer = Offer(fields: Fields, keyId: string, signature: string)

  datatype Device = Device(model: string, schema: long, keyId: string)

  /** The text up to the first NUL, which is all that `c_str()` shows. */
  function CStr(s: string): (t: string)
    ensures t <= s && '\0' !in t && (t == s || s[|t|] == '\0')
  {
    if s == [] || s[0] == '\0' then [] else [s[0]] + CStr(s[1..])
  }

  function CFields(f: Fields): Fields
  {
    f.(hwCompat := CStr(f.hwCompat), version := CStr(f.version), imageSha256 := CStr(f.imageSha256),
       imageUrl := CStr(f.imageUrl), channel := CStr(f.channel), manifestId := CStr(f.manifestId))
  }

  predicate HasRequiredFields(o: Offer)
  {
    && o.fields.imageSize >= 0 && |o.fields.imageSha256| == 64 && |o.fields.channel| > 0
    && o.fields.issuedAt >= 0 && o.fields.expiresAt >= 0 && |o.fields.manifestId| > 0
    && |o.keyId| > 0 && |o.signature| > 0 && |o.fields.hwCompat| > 0
  }

  datatype AuthVerdict =
    | AuthOk | MissingFields | UnknownKeyId | NoTimeSource | TimeInvalid | BadSignatureEncoding | SigVerifyFailed

  const CANONICAL_CAPACITY := 512
  const TIME_SKEW_S := 3600

  /** When a manifest is authentic: known key, valid in time, and signed over exactly its own text. */
  predicate Authentic(c: Crypto, d: Device, o: Offer, haveTime: bool, now: long)
  {
    && CStr(o.keyId) == d.keyId && haveTime
    && TimeValidity(o.fields.issuedAt, o.fields.expiresAt, now, 3600) == TimeOk
    && |Canonical(CFields(o.fields))| < 512
    && Signed(c, Canonical(CFields(o.fields)), o.signature)
  }

  function Authenticity(c: Crypto, d: Device, o: Offer, haveTime: bool, now: long): (v: AuthVerdict)
    ensures v == AuthOk <==> Authentic(c, d, o, haveTime, now)
    ensures v == UnknownKeyId <==> CStr(o.keyId) != d.keyId
    ensures v == NoTimeSource <==> CStr(o.keyId) == d.keyId && !haveTime
    ensures v == TimeInvalid ==> TimeValidity(o.fields.issuedAt, o.fields.expiresAt, now, 3600) != TimeOk
    ensures v == MissingFields ==> |Canonical(CFields(o.fields))| >= 512
    ensures v == BadSignatureEncoding ==> c.base64(o.signature) == None
    ensures v == SigVerifyFailed ==>
      c.base64(o.signature).Some? && !Signed(c, Canonical(CFields(o.fields)), o.signature)
  {
    var text := Canonical(CFields(o.fields));
    if CStr(o.keyId) != d.keyId then UnknownKeyId
    else if !haveTime then NoTimeSource
    else if TimeValidity(o.fields.issuedAt, o.fields.expiresAt, now, TIME_SKEW_S) != TimeOk then TimeInvalid
    else if |text| >= CANONICAL_CAPACITY then MissingFields
    else if c.base64(o.signature).None? then BadSignatureEncoding
    else if !c.keyParses then SigVerifyFailed
    else if !c.verify(c.sha256Text(text), c.base64(o.signature).value) then SigVerifyFailed
    else AuthOk
  }

  method VerifyAuthenticity(c: Crypto, d: Device, o: Offer, haveTime: bool, now: long) returns (v: AuthVerdict)
    ensures v == Authenticity(c, d, o, haveTime, now)
  {
    if CStr(o.keyId) != d.keyId { return UnknownKeyId; }
    if !haveTime { return NoTimeSource; }
    if TimeValidity(o.fields.issuedAt, o.fields.expiresAt, now, TIME_SKEW_S) != TimeOk { return TimeInvalid; }
    var canonical := new char[CANONICAL_CAPACITY];
    var n := BuildCanonical(CFields(o.fields), canonical);
    if n < 0 { return MissingFields; }
    var decoded := c.base64(o.signature);
    if decoded.None? { return BadSignatureEncoding; }
    var hash := c.sha256Text(canonical[..n]);
    if !c.keyParses { return SigVerifyFailed; }
    if !c.verify(hash, decoded.value) { return SigVerifyFailed; }
    v := AuthOk;
  }

  // --- the download --------------------------------------------------------------------------

  /** One turn of the download loop: what the socket offers, whether it is still open, whether the
      stall timer has run out, the bytes a read returns and whether the flash takes them. */
  datatype Turn = Turn(available: nat, connected: bool, stalled: bool, read: bytes, writeOk: bool)

  datatype Download = Download(began: bool, code: int, contentLength: int, beginOk: bool, stream: seq<Turn>,
                               endOk: bool)

  /** The bytes one turn hands over: at most what is available and at most the buffer. */
  function Chunk(t: Turn): bytes
  {
    Take(t.read, Min(t.available, 1024))
  }

  /** The image accumulated over the turns and whether the loop ended in an error. A stream that runs
      out is a closed connection. */
  function Receive(got: bytes, size: nat, stream: seq<Turn>): (bytes, bool)
    decreases |stream|
  {
    if |got| >= size || stream == [] then (got, false)
    else if stream[0].available == 0 then
      if !stream[0].connected then (got, false)
      else if stream[0].stalled then (got, true)
      else Receive(got, size, stream[1..])
    else if Chunk(stream[0]) == [] then Receive(got, size, stream[1..])
    else if !stream[0].writeOk then (got, true)
    else Receive(got + Chunk(stream[0]), size, stream[1..])
  }

  function HexChar(d: nat): (c: char)
    requires d < 16
    ensures c == "0123456789abcdef"[d]
  {
    if d < 10 then '0' + d as char else 'a' + (d - 10) as char
  }

  function Hex(d: Digest): (h: string)
    ensures |h| == 64
  {
    seq(64, i requires 0 <= i < 64 => HexChar(if i % 2 == 0 then d[i / 2] / 16 else d[i / 2] % 16))
  }

  function Lower(c: char): char
  {
    if 'A' <= c <= 'Z' then c + 32 as char else c
  }

  predicate EqualsIgnoreCase(a: string, b: string)
  {
    |a| == |b| && forall i :: 0 <= i < |a| ==> Lower(a[i]) == Lower(b[i])
  }

  /** The image has the announced length and hash. */
  predicate Matches(c: Crypto, image: bytes, size: int, sha256: string)
  {
    |image| == size && EqualsIgnoreCase(sha256, Hex(c.sha256(image)))
  }

  /** The image installed by a download, if any. */
  function Fetch(c: Crypto, size: nat, sha256: string, d: Download): (image: Option<bytes>)
    ensures image.Some? ==> Matches(c, image.value, size, sha256)
  {
    var (got, ioError) := Receive([], size, d.stream);
    if d.began && d.code == 200 && (d.contentLength >= 0 ==> d.contentLength == size) && d.beginOk
       && !ioError && |got| == size && EqualsIgnoreCase(sha256, Hex(c.sha256(got))) && d.endOk
    then Some(got) else None
  }

  method HexOf(hash: Digest) returns (h: string)
    ensures h == Hex(hash)
  {
    h := [];
    for i := 0 to 32
      invariant h == Hex(hash)[..2 * i]
    {
      h := h + [HexChar(hash[i] / 16), HexChar(hash[i] % 16)];
    }
  }

  // --- the updater's state ---------------------------------------------------------------------

  /** What is compiled into a firmware image. */
  datatype Firmware = Firmware(version: string, securityVersion: u32)

  datatype State = State(app: Prefs, sec: Prefs, boot: bytes, fw: Firmware, pendingVerify: bool, confirmed: bool,
                         failed: bool, backoff: u32, lastFail: u32, lastReject: Verdict, lastAuth: AuthVerdict)

  /** One call of `poll`: what the network answers, the clock before and after, and the download. */
  datatype Visit = Visit(online: bool, now: u32, began: bool, code: int, length: int, offer: Offer,
                         haveTime: bool, unixNow: long, download: Download, after: u32)

  datatype Judgement = Idle | Current | Rejected(verdict: Verdict) | AuthRejected(auth: AuthVerdict) | Go

  function AsCandidate(f: Fields): Candidate
  {
    Candidate(f.securityVersion >= 0, f.securityVersion, f.hwCompat != [], CStr(f.hwCompat),
              f.schemaVersion >= 0, f.schemaVersion)
  }

  /** Time elapsed on the 32-bit millisecond clock. */
  function Elapsed(now: u32, since: u32): u32
  {
    (now - since) % 0x1_0000_0000
  }

  predicate Waiting(s: State, v: Visit)
  {
    s.backoff != 0 && Elapsed(v.now, s.lastFail) < s.backoff
  }

  predicate Answered(s: State, v: Visit)
  {
    && v.online && !Waiting(s, v) && v.began && v.code == 200 && v.length <= 4096
    && v.offer.fields.version != [] && v.offer.fields.imageUrl != []
  }

  function Judge(c: Crypto, d: Device, s: State, v: Visit): Judgement
  {
    var verdict := Evaluate(AsCandidate(v.offer.fields), Floor(s.sec), Some(d.model), d.schema);
    var auth := Authenticity(c, d, v.offer, v.haveTime, v.unixNow);
    if !Answered(s, v) then Idle
    else if CStr(v.offer.fields.version) == s.fw.version then Current
    else if verdict != Accept then Rejected(verdict)
    else if !HasRequiredFields(v.offer) then AuthRejected(MissingFields)
    else if auth != AuthOk then AuthRejected(auth)
    else Go
  }

  /** The server answered with something to consider: online, out of the retry window, status 200, a body of at
      most 4096 bytes, a version and an address. */
  lemma AnsweredExactly(s: State, v: Visit)
    ensures Answered(s, v) <==>
      && v.online && (s.backoff == 0 || (v.now - s.lastFail) % 0x1_0000_0000 >= s.backoff)
      && v.began && v.code == 200 && v.length <= 4096
      && |v.offer.fields.version| > 0 && |v.offer.fields.imageUrl| > 0
  {
  }

  /** An update is attempted exactly when every condition on the offer holds: the declared security
      version reaches the floor, the hardware model matches, and the manifest is complete and authentic. */
  lemma GoExactly(c: Crypto, d: Device, s: State, v: Visit)
    ensures var f := v.offer.fields;
      Judge(c, d, s, v) == Go <==>
        && Answered(s, v) && CStr(f.version) != s.fw.version
        && Floor(s.sec) <= f.securityVersion && CStr(f.hwCompat) == d.model
        && (f.schemaVersion >= 0 ==> f.schemaVersion == d.schema)
        && f.imageSize >= 0 && |f.imageSha256| == 64 && |f.channel| > 0 && f.issuedAt >= 0 && f.expiresAt >= 0
        && |f.manifestId| > 0 && |v.offer.keyId| > 0 && |v.offer.signature| > 0 && |f.hwCompat| > 0
        && Authentic(c, d, v.offer, v.haveTime, v.unixNow)
  {
    hide Authenticity, Authentic, Floor, CStr, Answered;
  }

  /** Every other judgement, by its own condition. A version that is there but malformed is never reported: it
      counts as missing. */
  lemma JudgedExactly(c: Crypto, d: Device, s: State, v: Visit)
    ensures var f, j := v.offer.fields, Judge(c, d, s, v);
      var newer := Answered(s, v) && CStr(f.version) != s.fw.version;
      var hwOk := f.hwCompat == [] || CStr(f.hwCompat) == d.model;
      && (j == Idle <==> !Answered(s, v))
      && (j == Current <==> Answered(s, v) && CStr(f.version) == s.fw.version)
      && (j == Rejected(MissingMetadata) <==> newer && f.securityVersion < 0)
      && (j == Rejected(Downgrade) <==> newer && 0 <= f.securityVersion < Floor(s.sec))
      && (j == Rejected(HwMismatch) <==> newer && f.securityVersion >= Floor(s.sec) && !hwOk)
      && (j == Rejected(SchemaMismatch) <==>
            newer && f.securityVersion >= Floor(s.sec) && hwOk && f.schemaVersion >= 0 && f.schemaVersion != d.schema)
      && j != Rejected(MalformedVersion) && j != Rejected(Accept)
      && (j.AuthRejected? ==>
            newer && (!HasRequiredFields(v.offer) || !Authentic(c, d, v.offer, v.haveTime, v.unixNow)))
  {
    hide Authentic, Floor, CStr, Answered, HasRequiredFields;
  }

  const FIRST_BACKOFF := 600_000
  const MAX_BACKOFF := 3_600_000

  function NextBackoff(b: u32): u32
  {
    if b == 0 then FIRST_BACKOFF else Min((2 * b) % 0x1_0000_0000, MAX_BACKOFF)
  }

  function Visited(c: Crypto, d: Device, s: State, v: Visit): State
  {
    match Judge(c, d, s, v)
    case Idle => s
    case Current => s.(failed := false)
    case Rejected(verdict) => s.(lastReject := verdict)
    case AuthRejected(auth) => s.(lastAuth := auth)
    case Go =>
      GoExactly(c, d, s, v);
      match Fetch(c, v.offer.fields.imageSize, v.offer.fields.imageSha256, v.download)
      case Some(image) => s.(failed := false, boot := image)
      case None => s.(failed := true, lastFail := v.after, backoff := NextBackoff(s.backoff))
  }

  /** A 32-bit unsigned value read as a signed one. */
  function ToLong(x: u32): long
  {
    if x < 0x8000_0000 then x else x - 0x1_0000_0000
  }

  function Confirmed(s: State, cancelOk: bool, luck: Luck): State
  {
    if s.confirmed || (s.pendingVerify && !cancelOk) then s
    else
      var sec := HealthyBoot(s.sec, s.fw.version, s.fw.securityVersion, luck);
      if s.fw.securityVersion > ToLong(Floor(sec)) then
        s.(confirmed := true, sec := Put(sec, SEC_VER, UInt(s.fw.securityVersion), luck.floor))
      else s.(confirmed := true, sec := sec)
  }

  /** A confirmation goes through unless it already has or a boot-loader trial could not be cancelled; then
      nothing changes, and once it has gone through nothing changes any more. */
  lemma ConfirmedOnce(s: State, cancelOk: bool, luck: Luck, again: bool, luck': Luck)
    ensures var t := Confirmed(s, cancelOk, luck);
      && (t.confirmed <==> s.confirmed || !s.pendingVerify || cancelOk)
      && (s.confirmed || (s.pendingVerify && !cancelOk) ==> t == s)
      && t == s.(confirmed := t.confirmed, sec := t.sec)
      && (t.confirmed ==> Confirmed(t, again, luck') == t)
  {
    hide HealthyBoot, Put, Floor, ToLong;
  }

  /** What a poll does to the rest of the state, by its judgement: the failure flag is cleared when the device is
      current or an attempt succeeds and set when one fails; a rejection is only noted. */
  lemma PollOutcome(c: Crypto, d: Device, s: State, v: Visit)
    ensures var j, t := Judge(c, d, s, v), Visited(c, d, s, v);
      && t == s.(failed := t.failed, boot := t.boot, backoff := t.backoff, lastFail := t.lastFail,
                 lastReject := t.lastReject, lastAuth := t.lastAuth)
      && (t.failed <==> ((j == Go && AttemptFailed(c, v)) || (s.failed && j != Go && j != Current)))
      && (j == Go && AttemptFailed(c, v) ==> t.lastFail == v.after && t.boot == s.boot)
      && (t.boot != s.boot ==> j == Go && !t.failed)
      && (t.lastReject != s.lastReject ==> j == Rejected(t.lastReject))
      && (t.lastAuth != s.lastAuth ==> j == AuthRejected(t.lastAuth))
      && (j.Rejected? ==> t.lastReject == j.verdict) && (j.AuthRejected? ==> t.lastAuth == j.auth)
      && (t.backoff != s.backoff || t.lastFail != s.lastFail ==> t.failed && j == Go)
  {
    hide Judge, Fetch, Matches, Answered, Authentic, Floor, CStr;
    GoExactly(c, d, s, v);
  }

  predicate AttemptFailed(c: Crypto, v: Visit)
  {
    v.offer.fields.imageSize >= 0
    && Fetch(c, v.offer.fields.imageSize, v.offer.fields.imageSha256, v.download) == None
  }

  class Ota {
    const crypto: Crypto
    const device: Device
    const fw: Firmware
    const store: S.Store
    var boot: bytes
    var pendingVerify: bool
    var confirmed: bool
    var failed: bool
    var backoff: u32
    var lastFail: u32
    var lastReject: Verdict
    var lastAuth: AuthVerdict

    /** A boot: everything in memory starts over. */
    constructor (crypto: Crypto, device: Device, fw: Firmware, store: S.Store, boot: bytes, pendingVerify: bool)
      ensures this.crypto == crypto && this.device == device && this.fw == fw && this.store == store
      ensures View() == State(store.app, store.sec, boot, fw, pendingVerify, false, false, 0, 0, Accept, AuthOk)
    {
      this.crypto, this.device, this.fw, this.store := crypto, device, fw, store;
      this.boot, this.pendingVerify := boot, pendingVerify;
      confirmed, failed, backoff, lastFail, lastReject, lastAuth := false, false, 0, 0, Accept, AuthOk;
    }

    ghost function View(): State
      reads this, store
    {
      State(store.app, store.sec, boot, fw, pendingVerify, confirmed, failed, backoff, lastFail, lastReject, lastAuth)
    }

    /** The running image has proven itself: record it and raise the floor to its own version. */
    method ConfirmHealthyBoot(cancelOk: bool, luck: Luck)
      modifies this`confirmed, store`sec
      ensures View() == Confirmed(old(View()), cancelOk, luck)
    {
      hide HealthyBoot, Put, Floor, ToLong;
      if confirmed { return; }
      if pendingVerify && !cancelOk { return; }
      confirmed := true;
      store.RecordHealthyBoot(fw.version, fw.securityVersion, luck);
      var floor := store.SecurityVersion();
      if fw.securityVersion > ToLong(floor) {
        store.SetSecurityVersion(fw.securityVersion, luck.floor);
      }
    }

    /** The gates a manifest passes before anything is downloaded, in the order they are applied. */
    method Decide(v: Visit) returns (j: Judgement)
      ensures j == Judge(crypto, device, View(), v)
    {
      hide Authenticity, Authentic, Floor, CStr, Evaluate, Elapsed, HasRequiredFields, AsCandidate;
      if !v.online { return Idle; }
      if backoff != 0 && Elapsed(v.now, lastFail) < backoff { return Idle; }
      if !v.began || v.code != 200 || v.length > 4096 { return Idle; }
      var f := v.offer.fields;
      if f.version == [] || f.imageUrl == [] { return Idle; }
      if CStr(f.version) == fw.version { return Current; }
      var floor := store.SecurityVersion();
      var verdict := Evaluate(AsCandidate(f), floor, Some(device.model), device.schema);
      if verdict != Accept { return Rejected(verdict); }
      if !HasRequiredFields(v.offer) { return AuthRejected(MissingFields); }
      var auth := VerifyAuthenticity(crypto, device, v.offer, v.haveTime, v.unixNow);
      if auth != AuthOk { return AuthRejected(auth); }
      j := Go;
    }

    method Poll(v: Visit) returns (restarted: bool)
      modifies this`boot, this`failed, this`backoff, this`lastFail, this`lastReject, this`lastAuth
      ensures View() == Visited(crypto, device, old(View()), v)
      ensures !restarted ==> boot == old(boot)
    {
      hide Fetch, Matches, NextBackoff, Judge, Answered, HasRequiredFields, Authentic, Floor, CStr;
      restarted := false;
      var j := Decide(v);
      match j {
        case Idle =>
        case Current => failed := false;
        case Rejected(verdict) => lastReject := verdict;
        case AuthRejected(auth) => lastAuth := auth;
        case Go =>
          GoExactly(crypto, device, View(), v);
          restarted := DoVerifiedUpdate(v.offer.fields.imageSize, v.offer.fields.imageSha256, v.download);
          if failed {
            lastFail := v.after;
            backoff := NextBackoff(backoff);
          }
      }
    }

    /** Streams the image into the spare partition, hashing as it goes, and switches the boot partition
        only when length and hash are the announced ones. */
    method DoVerifiedUpdate(size: nat, sha256: string, d: Download) returns (restarted: bool)
      modifies this`boot, this`failed
      ensures restarted == Fetch(crypto, size, sha256, d).Some?
      ensures failed == !restarted
      ensures boot == if restarted then Fetch(crypto, size, sha256, d).value else old(boot)
    {
      hide Hex, EqualsIgnoreCase;
      failed, restarted := false, false;
      if !d.began || d.code != 200 { failed := true; return; }
      if d.contentLength >= 0 && d.contentLength != size { failed := true; return; }
      if !d.beginOk { failed := true; return; }
      var hashed, spare, ioError := StreamImage(size, d.stream);
      if ioError || |spare| != size { failed := true; return; }
      var computed := HexOf(crypto.sha256(hashed));
      if !EqualsIgnoreCase(sha256, computed) { failed := true; return; }
      if !d.endOk { failed := true; return; }
      boot := spare;
      restarted := true;
    }
  }

  /** The download loop: the bytes fed to the hash, the bytes in the spare partition, and the error flag. */
  method StreamImage(size: nat, stream: seq<Turn>) returns (hashed: bytes, spare: bytes, ioError: bool)
    ensures (spare, ioError) == Receive([], size, stream)
    ensures !ioError ==> hashed == spare
  {
    hashed, spare, ioError := [], [], false;
    var i := 0;
    while |spare| < size && i < |stream|
      invariant i <= |stream| && hashed == spare && !ioError
      invariant Receive([], size, stream) == Receive(spare, size, stream[i..])
      decreases |stream| - i
    {
      var turn := stream[i];
      assert stream[i..][0] == turn && stream[i..][1..] == stream[i + 1..];
      i := i + 1;
      if turn.available == 0 {
        if !turn.connected { break; }
        if turn.stalled {
          ioError := true;
          break;
        }
      } else {
        var chunk := Take(turn.read, Min(turn.available, 1024));
        if chunk != [] {
          hashed := hashed + chunk;
          if !turn.writeOk {
            ioError := true;
            break;
          }
          spare := spare + chunk;
        }
      }
    }
  }
}
