/** Non-volatile key/value storage in two namespaces; only one is wiped by a factory reset. */
module Store {
  import opened Bytes

  datatype Value = UInt(n: u32) | Text(s: string)
  type Prefs = map<string, Value>

  const SEC_VER := "sec_ver"
  const LAST_OK_VER := "last_ok_ver"
  const LAST_OK_SECVER := "last_ok_secver"
  const UNHEALTHY_STRK := "unhealthy_strk"

  function GetUInt(p: Prefs, key: string): u32
  {
    if key in p && p[key].UInt? then p[key].n else 0
  }

  /** A write that the flash may silently refuse. */
  function Put(p: Prefs, key: string, v: Value, stored: bool): Prefs
  {
    if stored then p[key := v] else p
  }

  /** The lowest security version the device still accepts. */
  function Floor(sec: Prefs): u32
  {
    GetUInt(sec, SEC_VER)
  }

  /** A device that never confirmed anything accepts every version. */
  lemma NoFloorAtFirst()
    ensures Floor(map[]) == 0
  {
  }

  /** Which of the writes of a health confirmation reach the flash. */
  datatype Luck = Luck(version: bool, security: bool, streak: bool, floor: bool)

  function HealthyBoot(sec: Prefs, version: string, security: u32, luck: Luck): Prefs
  {
    var p := Put(sec, LAST_OK_VER, Text(version), luck.version);
    var q := Put(p, LAST_OK_SECVER, UInt(security), luck.security);
    if GetUInt(q, UNHEALTHY_STRK) != 0 then Put(q, UNHEALTHY_STRK, UInt(0), luck.streak) else q
  }

  /** Recording a healthy boot leaves the floor alone. */
  lemma HealthyBootKeepsFloor(sec: Prefs, version: string, security: u32, luck: Luck)
    ensures Floor(HealthyBoot(sec, version, security, luck)) == Floor(sec)
  {
    KeysDiffer();
  }

  /** The running image has never been confirmed, going by what is stored. */
  predicate OnTrial(sec: Prefs, version: string, security: u32)
  {
    || (if LAST_OK_VER in sec then sec[LAST_OK_VER] else Text("")) != Text(version)
    || GetUInt(sec, LAST_OK_SECVER) != security
  }

  /** Once a healthy boot is recorded, this image is no longer on trial, its count of unhealthy boots is
      cleared, and any other image is on trial. */
  lemma HealthyBootRecorded(sec: Prefs, version: string, security: u32, luck: Luck,
                            otherVersion: string, otherSecurity: u32)
    requires luck.version && luck.security && luck.streak
    ensures var after := HealthyBoot(sec, version, security, luck);
      && GetUInt(after, UNHEALTHY_STRK) == 0
      && (OnTrial(after, otherVersion, otherSecurity) <==> (otherVersion, otherSecurity) != (version, security))
  {
    KeysDiffer();
  }

  lemma KeysDiffer()
    ensures LAST_OK_VER != SEC_VER && LAST_OK_SECVER != SEC_VER && UNHEALTHY_STRK != SEC_VER
    ensures LAST_OK_VER != LAST_OK_SECVER && LAST_OK_VER != UNHEALTHY_STRK && LAST_OK_SECVER != UNHEALTHY_STRK
  {
    assert |SEC_VER| == 7 && |LAST_OK_VER| == 11 && |LAST_OK_SECVER| == 14 && |UNHEALTHY_STRK| == 14;
    assert LAST_OK_SECVER[0] != UNHEALTHY_STRK[0];
  }

  class Store {
    var app: Prefs
    var sec: Prefs

    constructor (app: Prefs, sec: Prefs)
      ensures this.app == app && this.sec == sec
    {
      this.app, this.sec := app, sec;
    }

    method SecurityVersion() returns (v: u32)
      ensures v == Floor(sec)
    {
      v := GetUInt(sec, SEC_VER);
    }

    method SetSecurityVersion(v: u32, stored: bool)
      modifies this`sec
      ensures sec == Put(old(sec), SEC_VER, UInt(v), stored)
      ensures Floor(sec) == if stored then v else Floor(old(sec))
    {
      sec := Put(sec, SEC_VER, UInt(v), stored);
    }

    method RecordHealthyBoot(version: string, security: u32, luck: Luck)
      modifies this`sec
      ensures sec == HealthyBoot(old(sec), version, security, luck) && Floor(sec) == Floor(old(sec))
    {
      HealthyBootKeepsFloor(sec, version, security, luck);
      sec := Put(sec, LAST_OK_VER, Text(version), luck.version);
      sec := Put(sec, LAST_OK_SECVER, UInt(security), luck.security);
      if GetUInt(sec, UNHEALTHY_STRK) != 0 {
        sec := Put(sec, UNHEALTHY_STRK, UInt(0), luck.streak);
      }
    }

    /** Everything in the ordinary namespace goes; the security namespace stays. */
    method FactoryReset()
      modifies this`app
      ensures app == map[]
    {
      app := map[];
    }
  }
}
