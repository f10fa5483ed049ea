/** System settings as key-value rows: reading with defaults, writing, and the retention periods. */
module Settings {
  import opened Common

  type Int32 = x: int | -0x8000_0000 <= x < 0x8000_0000

  type Rows = map<string, string>

  /** Scanning an integer from the front of a text. */
  type Scan = string -> Option<int>

  datatype SystemSettings = SystemSettings(
    auditDays: Int32,
    sessionDays: Int32,
    serviceName: string,
    siteIcon: string,
    cornerIcon: string,
    totpEnabled: bool)

  const DEFAULT_AUDIT_DAYS: Int32 := 90

  const DEFAULT_SESSION_DAYS: Int32 := 30

  const DEFAULT_NAME := "Temperate"

  const AUDIT_DAYS := "audit_log_retention_days"

  const SESSION_DAYS := "session_log_retention_days"

  const SERVICE_NAME := "service_name"

  const SITE_ICON := "site_icon"

  const CORNER_ICON := "corner_icon"

  const TOTP_ENABLED := "totp_enabled"

  const DEFAULTS :=
    SystemSettings(DEFAULT_AUDIT_DAYS, DEFAULT_SESSION_DAYS, DEFAULT_NAME, DEFAULT_NAME, DEFAULT_NAME, false)

  // ----- numbers as text -----

  /** What a conversion to 32 bits keeps of an integer. */
  function Truncate32(v: int): (kept: Int32)
    ensures (v - kept) % 0x1_0000_0000 == 0
  {
    (v + 0x8000_0000) % 0x1_0000_0000 - 0x8000_0000
  }

  function Digits(n: nat): string {
    (if n < 10 then "" else Digits(n / 10)) + [('0' as int + n % 10) as char]
  }

  function Decimal(v: int): string {
    if v < 0 then "-" + Digits(-v) else Digits(v)
  }

  /** A scanner reads back every 32-bit integer as it is printed; about other texts nothing is said. */
  ghost predicate ReadsDecimals(scan: Scan) {
    forall v: Int32 :: scan(Decimal(v)) == Some(v)
  }

  predicate IsDigit(c: char) {
    '0' <= c <= '9'
  }

  /** The value of the digits at the front, continuing from `value`; it stops at the first other character. */
  function DigitsValue(s: string, value: nat): nat
    decreases |s|
  {
    if s == "" || !IsDigit(s[0]) then value else DigitsValue(s[1..], 10 * value + (s[0] as int - '0' as int))
  }

  function ScanDecimal(s: string): Option<int> {
    if s != "" && IsDigit(s[0]) then Some(DigitsValue(s, 0))
    else if |s| > 1 && s[0] == '-' && IsDigit(s[1]) then Some(0 - DigitsValue(s[1..], 0))
    else None
  }

  lemma {:induction false} DigitsValueAppend(s: string, d: char, value: nat)
    requires IsDigit(d) && forall i :: 0 <= i < |s| ==> IsDigit(s[i])
    ensures DigitsValue(s + [d], value) == 10 * DigitsValue(s, value) + (d as int - '0' as int)
    decreases |s|
  {
    if s == "" {
      assert (s + [d])[1..] == "";
    } else {
      assert (s + [d])[1..] == s[1..] + [d];
      DigitsValueAppend(s[1..], d, 10 * value + (s[0] as int - '0' as int));
    }
  }

  lemma {:induction false} DigitsRoundTrip(n: nat)
    ensures Digits(n) != "" && forall i :: 0 <= i < |Digits(n)| ==> IsDigit(Digits(n)[i])
    ensures DigitsValue(Digits(n), 0) == n
  {
    var last := ('0' as int + n % 10) as char;
    if n >= 10 {
      DigitsRoundTrip(n / 10);
      DigitsValueAppend(Digits(n / 10), last, 0);
    } else {
      assert Digits(n) == [last];
      assert DigitsValue([last][1..], 10 * 0 + n) == n;
    }
  }

  lemma ScanDecimalReads()
    ensures ReadsDecimals(ScanDecimal)
  {
    forall v: Int32 ensures ScanDecimal(Decimal(v)) == Some(v) {
      DigitsRoundTrip(if v < 0 then 0 - v else v);
      if v < 0 {
        assert Decimal(v)[1..] == Digits(0 - v);
        assert Decimal(v)[1] == Digits(0 - v)[0];
      }
    }
  }

  // ----- reading and writing -----

  function DaysOr(rows: Rows, scan: Scan, key: string, default: Int32): Int32 {
    if key !in rows || scan(rows[key]).None? then default
    else
      var v := Truncate32(scan(rows[key]).value);
      if v > 0 then v else default
  }

  function TextOr(rows: Rows, key: string, default: string): string {
    if key in rows && rows[key] != "" then rows[key] else default
  }

  function Read(rows: Rows, scan: Scan): SystemSettings {
    SystemSettings(
      DaysOr(rows, scan, AUDIT_DAYS, DEFAULT_AUDIT_DAYS),
      DaysOr(rows, scan, SESSION_DAYS, DEFAULT_SESSION_DAYS),
      TextOr(rows, SERVICE_NAME, DEFAULT_NAME),
      TextOr(rows, SITE_ICON, DEFAULT_NAME),
      TextOr(rows, CORNER_ICON, DEFAULT_NAME),
      TOTP_ENABLED in rows && rows[TOTP_ENABLED] == "true")
  }

  /** The rows a read writes back: every setting but one, unless its key was seen. */
  function DefaultPairs(s: SystemSettings, seen: set<string>): Rows {
    map[AUDIT_DAYS := Decimal(s.auditDays),
        SESSION_DAYS := Decimal(s.sessionDays),
        SERVICE_NAME := s.serviceName,
        SITE_ICON := s.siteIcon,
        CORNER_ICON := s.cornerIcon] - seen
  }

  function AfterRead(rows: Rows, scan: Scan): Rows {
    rows + DefaultPairs(Read(rows, scan), rows.Keys)
  }

  function Named(s: SystemSettings): SystemSettings {
    s.(serviceName := if s.serviceName == "" then DEFAULT_NAME else s.serviceName,
       siteIcon := if s.siteIcon == "" then DEFAULT_NAME else s.siteIcon,
       cornerIcon := if s.cornerIcon == "" then DEFAULT_NAME else s.cornerIcon)
  }

  function Pairs(s: SystemSettings): Rows {
    map[AUDIT_DAYS := Decimal(s.auditDays),
        SESSION_DAYS := Decimal(s.sessionDays),
        SERVICE_NAME := s.serviceName,
        SITE_ICON := s.siteIcon,
        CORNER_ICON := s.cornerIcon,
        TOTP_ENABLED := if s.totpEnabled then "true" else "false"]
  }

  function AfterUpdate(rows: Rows, s: SystemSettings): Rows {
    rows + Pairs(Named(s))
  }

  lemma KeysDiffer()
    ensures |AUDIT_DAYS| == 24 && |SESSION_DAYS| == 26 && |SERVICE_NAME| == 12
    ensures |SITE_ICON| == 9 && |CORNER_ICON| == 11 && |TOTP_ENABLED| == 12 && SERVICE_NAME != TOTP_ENABLED
  {
  }

  lemma NamedHasNames(s: SystemSettings)
    ensures Named(s).serviceName != "" && Named(s).siteIcon != "" && Named(s).cornerIcon != ""
    ensures Named(Named(s)) == Named(s)
  {
  }

  lemma PairsHold(s: SystemSettings)
    ensures Pairs(s).Keys == {AUDIT_DAYS, SESSION_DAYS, SERVICE_NAME, SITE_ICON, CORNER_ICON, TOTP_ENABLED}
    ensures Pairs(s)[AUDIT_DAYS] == Decimal(s.auditDays) && Pairs(s)[SESSION_DAYS] == Decimal(s.sessionDays)
    ensures Pairs(s)[SERVICE_NAME] == s.serviceName
    ensures Pairs(s)[SITE_ICON] == s.siteIcon && Pairs(s)[CORNER_ICON] == s.cornerIcon
    ensures Pairs(s)[TOTP_ENABLED] == "true" <==> s.totpEnabled
  {
  }

  /** What a read makes of rows that hold every field of `s`. */
  lemma ReadOfFields(rows: Rows, scan: Scan, s: SystemSettings)
    requires ReadsDecimals(scan) && s == Named(s)
    requires AUDIT_DAYS in rows && rows[AUDIT_DAYS] == Decimal(s.auditDays)
    requires SESSION_DAYS in rows && rows[SESSION_DAYS] == Decimal(s.sessionDays)
    requires SERVICE_NAME in rows && rows[SERVICE_NAME] == s.serviceName
    requires SITE_ICON in rows && rows[SITE_ICON] == s.siteIcon
    requires CORNER_ICON in rows && rows[CORNER_ICON] == s.cornerIcon
    requires TOTP_ENABLED in rows && (rows[TOTP_ENABLED] == "true" <==> s.totpEnabled)
    ensures Read(rows, scan)
         == s.(auditDays := if s.auditDays > 0 then s.auditDays else DEFAULT_AUDIT_DAYS,
               sessionDays := if s.sessionDays > 0 then s.sessionDays else DEFAULT_SESSION_DAYS)
  {
  }

  /** Reading after an update gives what was set, with periods that are not positive and empty names
      replaced by the defaults, whatever was stored before. */
  lemma ReadAfterUpdate(rows: Rows, scan: Scan, s: SystemSettings)
    requires ReadsDecimals(scan)
    ensures Read(AfterUpdate(rows, s), scan)
         == SystemSettings(if s.auditDays > 0 then s.auditDays else DEFAULT_AUDIT_DAYS,
                           if s.sessionDays > 0 then s.sessionDays else DEFAULT_SESSION_DAYS,
                           if s.serviceName != "" then s.serviceName else DEFAULT_NAME,
                           if s.siteIcon != "" then s.siteIcon else DEFAULT_NAME,
                           if s.cornerIcon != "" then s.cornerIcon else DEFAULT_NAME,
                           s.totpEnabled)
  {
    PairsHold(Named(s));
    NamedHasNames(s);
    ReadOfFields(AfterUpdate(rows, s), scan, Named(s));
  }

  lemma DefaultsHold(s: SystemSettings, seen: set<string>)
    ensures DefaultPairs(s, seen).Keys == {AUDIT_DAYS, SESSION_DAYS, SERVICE_NAME, SITE_ICON, CORNER_ICON} - seen
    ensures AUDIT_DAYS !in seen ==> DefaultPairs(s, seen)[AUDIT_DAYS] == Decimal(s.auditDays)
    ensures SESSION_DAYS !in seen ==> DefaultPairs(s, seen)[SESSION_DAYS] == Decimal(s.sessionDays)
    ensures SERVICE_NAME !in seen ==> DefaultPairs(s, seen)[SERVICE_NAME] == s.serviceName
    ensures SITE_ICON !in seen ==> DefaultPairs(s, seen)[SITE_ICON] == s.siteIcon
    ensures CORNER_ICON !in seen ==> DefaultPairs(s, seen)[CORNER_ICON] == s.cornerIcon
  {
  }

  lemma DaysStable(rows: Rows, rows': Rows, scan: Scan, key: string, default: Int32)
    requires ReadsDecimals(scan) && default > 0 && key in rows'
    requires rows'[key] == if key in rows then rows[key] else Decimal(DaysOr(rows, scan, key, default))
    ensures DaysOr(rows', scan, key, default) == DaysOr(rows, scan, key, default)
  {
  }

  /** The defaults that a read writes back change no later read, and are written only once. */
  lemma ReadIsStable(rows: Rows, scan: Scan)
    requires ReadsDecimals(scan)
    ensures Read(AfterRead(rows, scan), scan) == Read(rows, scan)
    ensures AfterRead(AfterRead(rows, scan), scan) == AfterRead(rows, scan)
  {
    KeysDiffer();
    var s, rows' := Read(rows, scan), AfterRead(rows, scan);
    DefaultsHold(s, rows.Keys);
    DaysStable(rows, rows', scan, AUDIT_DAYS, DEFAULT_AUDIT_DAYS);
    DaysStable(rows, rows', scan, SESSION_DAYS, DEFAULT_SESSION_DAYS);
    DefaultsHold(Read(rows', scan), rows'.Keys);
    assert DefaultPairs(Read(rows', scan), rows'.Keys).Keys == {};
  }

  /** The periods the nightly clean-up uses. */
  function RetentionDays(s: SystemSettings): (Int32, Int32) {
    (if s.auditDays <= 0 then DEFAULT_AUDIT_DAYS else s.auditDays,
     if s.sessionDays <= 0 then DEFAULT_SESSION_DAYS else s.sessionDays)
  }

  /** Whatever is stored, and however it scans, each period is between 1 and 2^31 - 1 days, and the
      clean-up's own defaults are never needed. */
  lemma RetentionInRange(rows: Rows, scan: Scan)
    ensures var days := RetentionDays(Read(rows, scan));
            && 1 <= days.0 <= 0x7fff_ffff && 1 <= days.1 <= 0x7fff_ffff
            && days == (Read(rows, scan).auditDays, Read(rows, scan).sessionDays)
  {
  }

  // ----- the repository as it is written -----

  class Repo {
    var rows: Rows
    const scan: Scan

    constructor (rows: Rows, scan: Scan)
      ensures this.rows == rows && this.scan == scan
    {
      this.rows, this.scan := rows, scan;
    }

    method GetSettings() returns (settings: SystemSettings)
      modifies this`rows
      ensures settings == Read(old(rows), scan) && rows == AfterRead(old(rows), scan)
      ensures rows.Keys == old(rows).Keys + {AUDIT_DAYS, SESSION_DAYS, SERVICE_NAME, SITE_ICON, CORNER_ICON}
      ensures forall key :: key in old(rows) ==> rows[key] == old(rows)[key]
      ensures AUDIT_DAYS !in old(rows) ==> rows[AUDIT_DAYS] == Decimal(DEFAULT_AUDIT_DAYS)
      ensures SESSION_DAYS !in old(rows) ==> rows[SESSION_DAYS] == Decimal(DEFAULT_SESSION_DAYS)
      ensures forall key :: key in {SERVICE_NAME, SITE_ICON, CORNER_ICON} && key !in old(rows)
                            ==> rows[key] == DEFAULT_NAME
    {
      KeysDiffer();
      DefaultsHold(Read(rows, scan), rows.Keys);
      var seen;
      settings, seen := ScanRows();
      Upsert(DefaultPairs(settings, seen));
    }

    /** The read loop: the rows in any order, and the set of keys that were there. */
    method ScanRows() returns (settings: SystemSettings, seen: set<string>)
      ensures settings == Read(rows, scan) && seen == rows.Keys
    {
      settings, seen := DEFAULTS, {};
      var rest := rows.Keys;
      ghost var part: Rows := map[];
      while rest != {}
        invariant rest <= rows.Keys && seen == rows.Keys - rest
        invariant part == rows - rest
        invariant settings == Read(part, scan)
        decreases rest
      {
        var key :| key in rest;
        settings := WithRow(part, key, rows[key], settings);
        OneMoreRow(rows, rest, key);
        part, seen, rest := part[key := rows[key]], seen + {key}, rest - {key};
      }
      assert part == rows;
    }

    /** One row of the read loop. */
    method WithRow(ghost before: Rows, key: string, value: string, settings: SystemSettings) returns (r: SystemSettings)
      requires key !in before && settings == Read(before, scan)
      ensures r == Read(before[key := value], scan)
    {
      r := settings;
      KeysDiffer();
      if key == AUDIT_DAYS {
        var v := scan(value);
        if v.Some? && Truncate32(v.value) > 0 {
          r := r.(auditDays := Truncate32(v.value));
        }
      } else if key == SESSION_DAYS {
        var v := scan(value);
        if v.Some? && Truncate32(v.value) > 0 {
          r := r.(sessionDays := Truncate32(v.value));
        }
      } else if key == SERVICE_NAME {
        if value != "" {
          r := r.(serviceName := value);
        }
      } else if key == SITE_ICON {
        if value != "" {
          r := r.(siteIcon := value);
        }
      } else if key == CORNER_ICON {
        if value != "" {
          r := r.(cornerIcon := value);
        }
      } else if key == TOTP_ENABLED {
        r := r.(totpEnabled := value == "true");
      }
    }

    method Upsert(pairs: Rows)
      modifies this`rows
      ensures rows == old(rows) + pairs
    {
      var rest := pairs.Keys;
      while rest != {}
        invariant rest <= pairs.Keys
        invariant rows == old(rows) + (pairs - rest)
        decreases rest
      {
        var key :| key in rest;
        OneMore(old(rows), pairs, rest, key);
        rows := rows[key := pairs[key]];
        rest := rest - {key};
      }
      assert pairs - {} == pairs;
    }

    /** Also fills the empty names of the settings it is given, which are returned. */
    method UpdateSettings(settings: SystemSettings) returns (stored: SystemSettings)
      modifies this`rows
      ensures stored == Named(settings) && rows == AfterUpdate(old(rows), settings)
      ensures stored == settings.(serviceName := stored.serviceName, siteIcon := stored.siteIcon,
                                  cornerIcon := stored.cornerIcon)
      ensures stored.serviceName == if settings.serviceName == "" then DEFAULT_NAME else settings.serviceName
      ensures stored.siteIcon == if settings.siteIcon == "" then DEFAULT_NAME else settings.siteIcon
      ensures stored.cornerIcon == if settings.cornerIcon == "" then DEFAULT_NAME else settings.cornerIcon
      ensures forall key :: key in old(rows)
                            && key !in [AUDIT_DAYS, SESSION_DAYS, SERVICE_NAME, SITE_ICON, CORNER_ICON, TOTP_ENABLED]
                            ==> rows[key] == old(rows)[key]
      ensures rows.Keys == old(rows).Keys
                           + {AUDIT_DAYS, SESSION_DAYS, SERVICE_NAME, SITE_ICON, CORNER_ICON, TOTP_ENABLED}
    {
      PairsHold(Named(settings));
      stored := settings;
      if stored.serviceName == "" {
        stored := stored.(serviceName := DEFAULT_NAME);
      }
      if stored.siteIcon == "" {
        stored := stored.(siteIcon := DEFAULT_NAME);
      }
      if stored.cornerIcon == "" {
        stored := stored.(cornerIcon := DEFAULT_NAME);
      }
      Upsert(Pairs(stored));
    }
  }

  lemma OneMore(rows: Rows, pairs: Rows, rest: set<string>, key: string)
    requires key in pairs && key in rest
    ensures rows + (pairs - (rest - {key})) == (rows + (pairs - rest))[key := pairs[key]]
  {
  }

  lemma OneMoreRow(rows: Rows, rest: set<string>, key: string)
    requires key in rows && key in rest
    ensures rows - (rest - {key}) == (rows - rest)[key := rows[key]]
  {
  }
}
