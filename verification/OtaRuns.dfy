/** What every run of polls, downloads, confirmations, reboots and factory resets keeps. */
module OtaRuns {
  import opened Bytes
  import opened Manifest
  import opened Store
  import opened Ota

  // --- downloads -------------------------------------------------------------------------------

  /** Everything the socket delivers, however it is cut into reads. */
  function Delivered(stream: seq<Turn>): bytes
    decreases |stream|
  {
    if stream == [] then []
    else (if stream[0].available == 0 then [] else Chunk(stream[0])) + Delivered(stream[1..])
  }

  lemma {:induction false} ReceivesPrefix(got: bytes, size: nat, stream: seq<Turn>)
    ensures got <= Receive(got, size, stream).0 <= got + Delivered(stream)
    decreases |stream|
  {
    hide Chunk;
    if stream != [] {
      var chunk := if stream[0].available == 0 then [] else Chunk(stream[0]);
      assert got + Delivered(stream) == (got + chunk) + Delivered(stream[1..]);
      assert got + [] == got;
      ReceivesPrefix(got, size, stream[1..]);
      ReceivesPrefix(got + chunk, size, stream[1..]);
    }
  }

  /** An installed image is the first `size` bytes delivered, with the announced hash. */
  lemma InstalledIsDelivered(c: Crypto, size: nat, sha256: string, d: Download)
    requires Fetch(c, size, sha256, d).Some?
    ensures |Delivered(d.stream)| >= size && Fetch(c, size, sha256, d).value == Delivered(d.stream)[..size]
    ensures EqualsIgnoreCase(sha256, Hex(c.sha256(Delivered(d.stream)[..size])))
  {
    hide EqualsIgnoreCase, Hex, Receive;
    ReceivesPrefix([], size, d.stream);
    assert [] + Delivered(d.stream) == Delivered(d.stream);
  }

  /** A truncated transfer installs nothing. */
  lemma TruncatedInstallsNothing(c: Crypto, size: nat, sha256: string, d: Download)
    requires |Delivered(d.stream)| < size
    ensures Fetch(c, size, sha256, d) == None
  {
    ReceivesPrefix([], size, d.stream);
    assert [] + Delivered(d.stream) == Delivered(d.stream);
  }

  /** A turn that ends the transfer: the connection is closed or has stalled, or the flash refuses the bytes. */
  predicate Breaks(t: Turn)
  {
    if t.available == 0 then !t.connected || t.stalled else Chunk(t) != [] && !t.writeOk
  }

  /** A transfer that breaks before the announced length installs nothing, whatever comes after. */
  lemma BrokenInstallsNothing(c: Crypto, size: nat, sha256: string, d: Download, i: nat)
    requires i < |d.stream| && Breaks(d.stream[i]) && |Delivered(d.stream[..i])| < size
    ensures Fetch(c, size, sha256, d) == None
  {
    hide EqualsIgnoreCase, Hex;
    BreakStops([], size, d.stream, i);
  }

  lemma {:induction false} BreakStops(got: bytes, size: nat, stream: seq<Turn>, i: nat)
    requires i < |stream| && Breaks(stream[i]) && |got| + |Delivered(stream[..i])| < size
    ensures Receive(got, size, stream).1 || |Receive(got, size, stream).0| < size
    decreases |stream|
  {
    hide Chunk;
    if i > 0 {
      var chunk := if stream[0].available == 0 then [] else Chunk(stream[0]);
      assert stream[..i][1..] == stream[1..][..i - 1];
      assert got + [] == got;
      if !Breaks(stream[0]) {
        BreakStops(got + chunk, size, stream[1..], i - 1);
      }
    }
  }

  /** No early close, no stall, no failed flash write. */
  predicate Clean(stream: seq<Turn>)
  {
    forall i :: 0 <= i < |stream| ==>
      (if stream[i].available == 0 then stream[i].connected && !stream[i].stalled else stream[i].writeOk)
  }

  /** Some read ends exactly after `size` bytes. */
  ghost predicate CutAt(stream: seq<Turn>, size: int)
  {
    exists k :: 0 <= k <= |stream| && |Delivered(stream[..k])| == size
  }

  lemma CutAtNext(stream: seq<Turn>, size: int)
    requires stream != [] && size > 0
    ensures CutAt(stream, size) <==> CutAt(stream[1..], size - |Delivered(stream[..1])|)
    ensures Delivered(stream[..1]) == (if stream[0].available == 0 then [] else Chunk(stream[0]))
  {
    hide Chunk;
    assert stream[..1][1..] == [];
    forall k | 0 < k <= |stream|
      ensures |Delivered(stream[..k])| == |Delivered(stream[..1])| + |Delivered(stream[1..][..k - 1])|
    {
      assert stream[..k][1..] == stream[1..][..k - 1];
    }
    if CutAt(stream, size) {
      var k :| 0 <= k <= |stream| && |Delivered(stream[..k])| == size;
      assert k > 0;
      assert |Delivered(stream[1..][..k - 1])| == size - |Delivered(stream[..1])|;
    }
    if CutAt(stream[1..], size - |Delivered(stream[..1])|) {
      var k :| 0 <= k <= |stream[1..]| && |Delivered(stream[1..][..k])| == size - |Delivered(stream[..1])|;
      assert |Delivered(stream[..k + 1])| == size;
    }
  }

  lemma {:induction false} CleanReceives(got: bytes, size: nat, stream: seq<Turn>)
    requires Clean(stream) && |got| <= size
    ensures !Receive(got, size, stream).1
    ensures |Receive(got, size, stream).0| == size <==> CutAt(stream, size - |got|)
    decreases |stream|
  {
    hide Chunk;
    if |got| == size {
      assert |Delivered(stream[..0])| == 0;
    } else if stream != [] {
      CutAtNext(stream, size - |got|);
      assert Clean(stream[1..]);
      var chunk := Delivered(stream[..1]);
      assert got + [] == got;
      if |got + chunk| <= size {
        CleanReceives(got + chunk, size, stream[1..]);
      }
    }
  }

  /** On a clean connection an image is installed exactly when the HTTP exchange is sound, some read
      ends on the announced length and the bytes up to there have the announced hash. */
  lemma InstalledExactly(c: Crypto, size: nat, sha256: string, d: Download)
    requires Clean(d.stream)
    ensures Fetch(c, size, sha256, d).Some? <==>
      && d.began && d.code == 200 && (d.contentLength >= 0 ==> d.contentLength == size) && d.beginOk && d.endOk
      && CutAt(d.stream, size) && |Delivered(d.stream)| >= size
      && EqualsIgnoreCase(sha256, Hex(c.sha256(Delivered(d.stream)[..size])))
  {
    hide EqualsIgnoreCase, Hex, Receive;
    CleanReceives([], size, d.stream);
    ReceivesPrefix([], size, d.stream);
    assert [] + Delivered(d.stream) == Delivered(d.stream);
    var got := Receive([], size, d.stream).0;
    if |got| == size {
      assert got == Delivered(d.stream)[..size];
    }
  }

  /** A stream of exactly the announced length is installed or refused for its bytes alone: how it was
      cut into reads does not matter. */
  lemma ChunkingIrrelevant(c: Crypto, size: nat, sha256: string, d: Download, e: Download)
    requires Clean(d.stream) && Clean(e.stream) && e == d.(stream := e.stream)
    requires Delivered(d.stream) == Delivered(e.stream) && |Delivered(d.stream)| == size
    ensures Fetch(c, size, sha256, d) == Fetch(c, size, sha256, e)
  {
    hide EqualsIgnoreCase, Hex, Receive;
    CleanReceivesAll(d.stream);
    CleanReceivesAll(e.stream);
  }

  lemma CleanReceivesAll(stream: seq<Turn>)
    requires Clean(stream)
    ensures Receive([], |Delivered(stream)|, stream) == (Delivered(stream), false)
  {
    hide Receive, Clean;
    var size := |Delivered(stream)|;
    CleanReceives([], size, stream);
    ReceivesPrefix([], size, stream);
    EndIsCut(stream);
    assert [] + Delivered(stream) == Delivered(stream);
    assert Receive([], size, stream).0 == Delivered(stream);
  }

  lemma EndIsCut(stream: seq<Turn>)
    ensures CutAt(stream, |Delivered(stream)|)
  {
    assert stream[..|stream|] == stream;
  }

  lemma HexPair(d: Digest, k: nat)
    requires k < 32
    ensures Hex(d)[2 * k] == HexChar(d[k] / 16) && Hex(d)[2 * k + 1] == HexChar(d[k] % 16)
  {
  }

  lemma HexCharInjective(a: nat, b: nat)
    requires a < 16 && b < 16 && Lower(HexChar(a)) == Lower(HexChar(b))
    ensures a == b
  {
  }

  /** The printed hash, in either case, determines the digest. */
  lemma HashPinned(text: string, a: Digest, b: Digest)
    requires EqualsIgnoreCase(text, Hex(a)) && EqualsIgnoreCase(text, Hex(b))
    ensures a == b
  {
    hide Hex, HexChar, Lower;
    forall k | 0 <= k < 32
      ensures a[k] == b[k]
    {
      HexPair(a, k);
      HexPair(b, k);
      assert Lower(text[2 * k]) == Lower(Hex(a)[2 * k]) == Lower(Hex(b)[2 * k]);
      assert Lower(text[2 * k + 1]) == Lower(Hex(a)[2 * k + 1]) == Lower(Hex(b)[2 * k + 1]);
      HexCharInjective(a[k] / 16, b[k] / 16);
      HexCharInjective(a[k] % 16, b[k] % 16);
    }
  }

  lemma {:induction false} CStrWhole(s: string)
    requires '\0' !in s
    ensures CStr(s) == s
  {
    if s != [] {
      CStrWhole(s[1..]);
      assert s == [s[0]] + s[1..];
    }
  }

  /** A hash text that matched a digest has no NUL in it, so it is the text that was signed. */
  lemma MatchedTextSigned(text: string, d: Digest)
    requires EqualsIgnoreCase(text, Hex(d))
    ensures CStr(text) == text
  {
    forall i | 0 <= i < |text|
      ensures text[i] != '\0'
    {
      assert Lower(text[i]) == Lower(Hex(d)[i]);
    }
    CStrWhole(text);
  }

  // --- runs ------------------------------------------------------------------------------------

  /** A reboot may start any firmware: what the boot loader picks, and what it finds in the ordinary
      namespace, are not constrained. */
  datatype Event =
    | Polled(visit: Visit)
    | Confirming(cancelOk: bool, luck: Luck)
    | Rebooted(fw: Firmware, app: Prefs, pendingVerify: bool)
    | FactoryReset

  function Step(c: Crypto, d: Device, s: State, e: Event): State
  {
    match e
    case Polled(v) => Visited(c, d, s, v)
    case Confirming(cancelOk, luck) => Confirmed(s, cancelOk, luck)
    case Rebooted(fw, app, pending) => State(app, s.sec, s.boot, fw, pending, false, false, 0, 0, Accept, AuthOk)
    case FactoryReset => s.(app := map[])
  }

  function Run(c: Crypto, d: Device, s: State, es: seq<Event>): State
    decreases |es|
  {
    if es == [] then s else Step(c, d, Run(c, d, s, es[..|es| - 1]), es[|es| - 1])
  }

  function Max(a: u32, b: u32): u32
  {
    if a < b then b else a
  }

  /** A confirmation that goes through: not yet confirmed and any boot-loader trial cancelled. */
  predicate Confirms(s: State, e: Event)
  {
    e.Confirming? && !s.confirmed && (s.pendingVerify ==> e.cancelOk)
  }

  /** The floor after any step: only a confirmation moves it, and only to the running version. */
  lemma FloorAfter(c: Crypto, d: Device, s: State, e: Event)
    ensures Floor(Step(c, d, s, e).sec) ==
      if Confirms(s, e) && e.luck.floor && s.fw.securityVersion > ToLong(Floor(s.sec))
      then s.fw.securityVersion else Floor(s.sec)
  {
    hide HealthyBoot, Judge, Fetch, ToLong;
    if Confirms(s, e) {
      HealthyBootKeepsFloor(s.sec, s.fw.version, s.fw.securityVersion, e.luck);
    }
  }

  /** A step lowers the floor exactly when the floor is past the signed range and a confirmation of a
      lower version is written. */
  lemma FloorDropsExactly(c: Crypto, d: Device, s: State, e: Event)
    ensures Floor(Step(c, d, s, e).sec) < Floor(s.sec) <==>
      Confirms(s, e) && e.luck.floor && Floor(s.sec) >= 0x8000_0000 && s.fw.securityVersion < Floor(s.sec)
  {
    hide Step, Floor, Confirms;
    FloorAfter(c, d, s, e);
  }

  /** The compiled security versions of a run are in the signed 32-bit range. */
  predicate SaneEvents(es: seq<Event>)
  {
    forall i :: 0 <= i < |es| && es[i].Rebooted? ==> es[i].fw.securityVersion < 0x8000_0000
  }

  predicate Sane(s: State)
  {
    s.fw.securityVersion < 0x8000_0000 && Floor(s.sec) < 0x8000_0000
  }

  lemma FirmwareAfter(c: Crypto, d: Device, s: State, e: Event)
    ensures Step(c, d, s, e).fw == if e.Rebooted? then e.fw else s.fw
  {
    hide Judge, Fetch, HealthyBoot, NextBackoff, Floor, Put, ToLong;
  }

  lemma StepSane(c: Crypto, d: Device, s: State, e: Event)
    requires Sane(s) && SaneEvents([e])
    ensures Sane(Step(c, d, s, e)) && Floor(Step(c, d, s, e).sec) >= Floor(s.sec)
    ensures Floor(Step(c, d, s, e).sec) ==
      if Confirms(s, e) && e.luck.floor then Max(Floor(s.sec), s.fw.securityVersion) else Floor(s.sec)
  {
    hide Step, Floor, Confirms;
    FloorAfter(c, d, s, e);
    FirmwareAfter(c, d, s, e);
    assert [e][0] == e;
  }

  /** The largest of the starting floor and every version whose confirmation was written. */
  function LargestConfirmed(c: Crypto, d: Device, s: State, es: seq<Event>): u32
    decreases |es|
  {
    if es == [] then Floor(s.sec)
    else
      var before, e := Run(c, d, s, es[..|es| - 1]), es[|es| - 1];
      var largest := LargestConfirmed(c, d, s, es[..|es| - 1]);
      if Confirms(before, e) && e.luck.floor then Max(largest, before.fw.securityVersion) else largest
  }

  /** Over every run the floor is the largest version ever confirmed: nothing else raises it, and
      nothing, a factory reset included, lowers it. */
  lemma {:induction false} FloorIsLargestConfirmed(c: Crypto, d: Device, s: State, es: seq<Event>)
    requires Sane(s) && SaneEvents(es)
    ensures Sane(Run(c, d, s, es)) && Floor(Run(c, d, s, es).sec) == LargestConfirmed(c, d, s, es)
    decreases |es|
  {
    hide Step, Floor, Confirms;
    if es != [] {
      FloorIsLargestConfirmed(c, d, s, es[..|es| - 1]);
      StepSane(c, d, Run(c, d, s, es[..|es| - 1]), es[|es| - 1]);
    }
  }

  lemma {:induction false} FloorNeverDrops(c: Crypto, d: Device, s: State, es: seq<Event>, k: nat)
    requires Sane(s) && SaneEvents(es) && k <= |es|
    ensures Floor(Run(c, d, s, es[..k]).sec) <= Floor(Run(c, d, s, es).sec)
    decreases |es|
  {
    hide Step, Floor, Confirms;
    if k == |es| {
      assert es[..k] == es;
    } else {
      var shorter := es[..|es| - 1];
      FloorNeverDrops(c, d, s, shorter, k);
      assert shorter[..k] == es[..k];
      FloorIsLargestConfirmed(c, d, s, shorter);
      StepSane(c, d, Run(c, d, s, shorter), es[|es| - 1]);
    }
  }

  // --- what is ever booted -----------------------------------------------------------------------

  /** The step switches the boot partition to a downloaded image. */
  predicate Installs(c: Crypto, d: Device, s: State, e: Event)
  {
    && e.Polled? && Judge(c, d, s, e.visit) == Go && e.visit.offer.fields.imageSize >= 0
    && Fetch(c, e.visit.offer.fields.imageSize, e.visit.offer.fields.imageSha256, e.visit.download).Some?
  }

  /** Only an installing poll touches the boot partition. */
  lemma BootAfter(c: Crypto, d: Device, s: State, e: Event)
    ensures !Installs(c, d, s, e) ==> Step(c, d, s, e).boot == s.boot
    ensures Installs(c, d, s, e) ==>
      Fetch(c, e.visit.offer.fields.imageSize, e.visit.offer.fields.imageSha256, e.visit.download)
      == Some(Step(c, d, s, e).boot)
  {
    hide Judge, Fetch, Matches, HealthyBoot, NextBackoff, Answered, HasRequiredFields, Authentic;
    hide Floor, CStr, Put, ToLong;
    if e.Polled? {
      GoExactly(c, d, s, e.visit);
    }
  }

  /** The signing key has only been used on these manifests, and none has a newline in a text field. */
  ghost predicate OnlySigned(c: Crypto, released: set<Fields>)
  {
    && (forall m :: m in released ==> OneLiners(m))
    && (forall text, signature :: Signed(c, text, signature) ==> SignedOf(released, text))
  }

  ghost predicate SignedOf(released: set<Fields>, text: string)
  {
    exists m :: m in released && Canonical(m) == text
  }

  /** The image is the one a released manifest describes, for this model, with a security version of at
      least `floor`. */
  predicate Genuine(c: Crypto, d: Device, m: Fields, image: bytes, floor: u32)
  {
    && Matches(c, image, m.imageSize, m.imageSha256) && m.securityVersion >= floor && m.hwCompat == d.model
  }

  ghost predicate GenuineAmong(c: Crypto, d: Device, released: set<Fields>, image: bytes, floor: u32)
  {
    exists m :: m in released && Genuine(c, d, m, image, floor)
  }

  /** Whatever manifest and bytes the network supplies, an image installed is one the signer released,
      and its signed security version is at least the floor at that moment. */
  lemma InstallsGenuine(c: Crypto, d: Device, s: State, e: Event, released: set<Fields>)
    requires OnlySigned(c, released) && Installs(c, d, s, e)
    ensures GenuineAmong(c, d, released, Step(c, d, s, e).boot, Floor(s.sec))
  {
    hide Canonical, OneLiners, Signed, Hex, EqualsIgnoreCase, Judge, Answered, HasRequiredFields, Step, Floor, CStr;
    var o := e.visit.offer;
    GoExactly(c, d, s, e.visit);
    BootAfter(c, d, s, e);
    var image := Step(c, d, s, e).boot;
    assert Matches(c, image, o.fields.imageSize, o.fields.imageSha256);
    MatchedTextSigned(o.fields.imageSha256, c.sha256(image));
    var text := Canonical(CFields(o.fields));
    assert Signed(c, text, o.signature);
    var m :| m in released && Canonical(m) == text;
    CanonicalInjective(m, CFields(o.fields));
    assert Genuine(c, d, m, image, Floor(s.sec));
  }

  /** The image now selected was installed by event `i`, and is a released one whose security version
      was at least the floor then. */
  ghost predicate InstalledAt(c: Crypto, d: Device, s: State, es: seq<Event>, released: set<Fields>, i: int)
  {
    && 0 <= i < |es| && Run(c, d, s, es).boot == Run(c, d, s, es[..i + 1]).boot
    && GenuineAmong(c, d, released, Run(c, d, s, es).boot, Floor(Run(c, d, s, es[..i]).sec))
  }

  /** Over every run the boot partition holds the image it started with or one the signer released,
      accepted when its signed security version was at least the floor. */
  lemma {:induction false} OnlyGenuineImagesBoot(c: Crypto, d: Device, s: State, es: seq<Event>, released: set<Fields>)
    requires OnlySigned(c, released)
    ensures Run(c, d, s, es).boot == s.boot || exists i :: InstalledAt(c, d, s, es, released, i)
    decreases |es|
  {
    hide Step, Floor, Installs, OnlySigned, GenuineAmong;
    if es != [] {
      var shorter, e := es[..|es| - 1], es[|es| - 1];
      var before := Run(c, d, s, shorter);
      OnlyGenuineImagesBoot(c, d, s, shorter, released);
      BootAfter(c, d, before, e);
      assert es[..|es|] == es;
      if Installs(c, d, before, e) {
        InstallsGenuine(c, d, before, e, released);
        assert InstalledAt(c, d, s, es, released, |es| - 1);
      } else if Run(c, d, s, es).boot != s.boot {
        var i :| InstalledAt(c, d, s, shorter, released, i);
        assert shorter[..i + 1] == es[..i + 1] && shorter[..i] == es[..i];
        assert InstalledAt(c, d, s, es, released, i);
      }
    }
  }

  /** No downgrade over any run: whatever was confirmed and written before the image now selected was
      installed, the image's signed security version is at least that. */
  lemma NoDowngrade(c: Crypto, d: Device, s: State, es: seq<Event>, released: set<Fields>, i: nat, k: nat)
    requires Sane(s) && SaneEvents(es) && InstalledAt(c, d, s, es, released, i) && k <= i
    ensures GenuineAmong(c, d, released, Run(c, d, s, es).boot, LargestConfirmed(c, d, s, es[..k]))
  {
    hide Run, Floor, GenuineAmong, LargestConfirmed;
    var before := es[..i];
    FloorNeverDrops(c, d, s, before, k);
    assert before[..k] == es[..k];
    FloorIsLargestConfirmed(c, d, s, es[..k]);
    var floor, largest := Floor(Run(c, d, s, before).sec), LargestConfirmed(c, d, s, es[..k]);
    GenuineDownward(c, d, released, Run(c, d, s, es).boot, floor, largest);
  }

  lemma GenuineDownward(c: Crypto, d: Device, released: set<Fields>, image: bytes, high: u32, low: u32)
    requires GenuineAmong(c, d, released, image, high) && low <= high
    ensures GenuineAmong(c, d, released, image, low)
  {
    hide Matches;
    var m :| m in released && Genuine(c, d, m, image, high);
    assert Genuine(c, d, m, image, low);
  }

  /** After the first failure the retry window doubles from ten minutes to an hour and no further. */
  lemma BackoffBounded(c: Crypto, d: Device, s: State, e: Event)
    requires s.backoff == 0 || 600_000 <= s.backoff <= 3_600_000
    ensures var b := Step(c, d, s, e).backoff;
      b == 0 || 600_000 <= b <= 3_600_000
    ensures e.Polled? && Judge(c, d, s, e.visit) == Go && !Installs(c, d, s, e) ==>
      Step(c, d, s, e).backoff == if s.backoff == 0 then 600_000 else Min(2 * s.backoff, 3_600_000)
  {
    hide Judge, Fetch, HealthyBoot, NextBackoff, Answered, HasRequiredFields, Authentic, Floor, CStr, Put, ToLong;
    NextBackoffBounded(s.backoff);
    if e.Polled? {
      GoExactly(c, d, s, e.visit);
    }
  }

  lemma NextBackoffBounded(b: u32)
    requires b == 0 || 600_000 <= b <= 3_600_000
    ensures NextBackoff(b) == if b == 0 then 600_000 else Min(2 * b, 3_600_000)
    ensures 600_000 <= NextBackoff(b) <= 3_600_000
  {
  }
}
