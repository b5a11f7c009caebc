/**
 * agents/domain_checker.py: the e-mail classifier (`is_valid_email`,
 * `is_whitelisted`) and the whitelist it consults, built once per run from
 * the base list and the domains found in the master roster.
 *
 * The files are inputs: the base list is given as its lines (or as absent),
 * and each master export as what loading it yields.
 */
module DomainChecker {
  import opened Wrappers
  import opened Strings

  /** Consumer mail providers; an address at one of them is not institutional. */
  const FreeMail: set<string> := {
    "gmail.com", "googlemail.com", "yahoo.com", "hotmail.com", "outlook.com",
    "live.com", "aol.com", "icloud.com", "protonmail.com", "gmx.com", "gmx.de",
    "pm.me"
  }

  // ---------------------------------------------------------------------------
  // The two predicates
  // ---------------------------------------------------------------------------

  /** `is_valid_email`: there is an `@`, and the SECOND `@`-piece, lowered, is not free mail. */
  predicate IsValidEmail(email: string)
  {
    '@' in email && Lower(Split(email, '@')[1]) !in FreeMail
  }

  /** `is_whitelisted`: the LAST `@`-piece, lowered, is in the whitelist. */
  predicate IsWhitelisted(email: string, whitelist: set<string>)
  {
    var parts := Split(email, '@');
    Lower(parts[|parts| - 1]) in whitelist
  }

  /** A string without `@` is never a valid address. */
  lemma NoAtIsInvalid(email: string)
    requires '@' !in email
    ensures !IsValidEmail(email)
  {
  }

  /**
   * Validity is decided by the text between the first `@` and the next `@`
   * (or the end), lowered but not stripped; whatever follows is ignored.
   */
  lemma ValidEmailIff(local: string, domain: string, rest: string)
    requires '@' !in local && '@' !in domain
    requires rest == [] || rest[0] == '@'
    ensures IsValidEmail(local + "@" + domain + rest) <==> Lower(domain) !in FreeMail
  {
    SecondPiece(local, domain, rest, '@');
  }

  /** Every address at a free-mail provider, in any letter case, is rejected. */
  lemma FreeMailRejected(local: string, domain: string)
    requires '@' !in local && '@' !in domain
    requires Lower(domain) in FreeMail
    ensures !IsValidEmail(local + "@" + domain)
  {
    ValidEmailIff(local, domain, []);
    assert local + "@" + domain + [] == local + "@" + domain;
  }

  lemma LowerGmail()
    ensures Lower("GMAIL.com") == "gmail.com"
  {
    var s := Lower("GMAIL.com");
    assert s[0] == 'g' && s[1] == 'm' && s[2] == 'a' && s[3] == 'i' && s[4] == 'l';
  }

  /** Upper case does not get a free-mail address through: `u@GMAIL.com` is rejected. */
  lemma UpperCaseFreeMailRejected()
    ensures !IsValidEmail("u@GMAIL.com")
  {
    LowerGmail();
    FreeMailRejected("u", "GMAIL.com");
    assert "u" + "@" + "GMAIL.com" == "u@GMAIL.com";
  }

  /** Whitelisting is decided by the text after the last `@`, lowered. */
  lemma WhitelistedIff(prefix: string, domain: string, whitelist: set<string>)
    requires '@' !in domain
    ensures IsWhitelisted(prefix + "@" + domain, whitelist) <==> Lower(domain) in whitelist
  {
    LastPiece(prefix, domain, '@');
  }

  /**
   * The two predicates read different pieces: with a second `@`, validity
   * follows the middle piece and whitelisting the last one, so a free-mail
   * last piece does not make the address invalid.
   */
  lemma FreeMailAfterSecondAtAccepted(local: string, domain: string, last: string, whitelist: set<string>)
    requires '@' !in local && '@' !in domain && '@' !in last
    requires Lower(domain) !in FreeMail
    ensures IsValidEmail(local + "@" + domain + "@" + last)
    ensures IsWhitelisted(local + "@" + domain + "@" + last, whitelist) <==> Lower(last) in whitelist
  {
    var email := local + "@" + domain + "@" + last;
    assert email == local + "@" + domain + ("@" + last);
    ValidEmailIff(local, domain, "@" + last);
    WhitelistedIff(local + "@" + domain, last, whitelist);
  }

  /** Without an `@` the whole address, lowered, is looked up. */
  lemma WhitelistedWithoutAt(email: string, whitelist: set<string>)
    requires '@' !in email
    ensures IsWhitelisted(email, whitelist) <==> Lower(email) in whitelist
  {
    SplitWithoutSep(email, '@');
  }

  // ---------------------------------------------------------------------------
  // Normalised domains
  // ---------------------------------------------------------------------------

  /** A domain that lowering and stripping leave as it is. */
  predicate Normalised(d: string)
  {
    Lower(d) == d && Strip(d) == d
  }

  /** A string with no capitals and no whitespace is normalised. */
  lemma NormalisedWhenPlain(s: string)
    requires forall i :: 0 <= i < |s| ==> !IsUpper(s[i]) && !IsSpace(s[i])
    ensures Normalised(s)
  {
    LowerUnchanged(s);
  }

  lemma LowerStripNormalised(s: string)
    ensures Normalised(Lower(Strip(s)))
  {
    LowerIdempotent(Strip(s));
    LowerStripCommute(Strip(s));
    StripIdempotent(s);
  }

  lemma StripLowerNormalised(s: string)
    ensures Normalised(Strip(Lower(s)))
  {
    LowerStripCommute(s);
    LowerStripNormalised(s);
  }

  // ---------------------------------------------------------------------------
  // Base list
  // ---------------------------------------------------------------------------

  /** `_load_base`: the stripped, lowered, non-blank lines; nothing if the file is absent. */
  function LoadBase(base: Option<seq<string>>): set<string>
  {
    match base
    case None => {}
    case Some(lines) => set l | l in lines && Strip(l) != [] :: Lower(Strip(l))
  }

  /** Every base entry is a non-empty normalised domain, taken from a non-blank line. */
  lemma BaseEntries(base: Option<seq<string>>, d: string)
    requires d in LoadBase(base)
    ensures base.Some? && d != [] && Normalised(d)
    ensures exists l :: l in base.value && Strip(l) != [] && d == Lower(Strip(l))
  {
    var l :| l in base.value && Strip(l) != [] && d == Lower(Strip(l));
    LowerStripNormalised(l);
  }

  /** Every non-blank line of the base file is listed, stripped and lowered. */
  lemma BaseLinesListed(lines: seq<string>, i: nat)
    requires i < |lines| && Strip(lines[i]) != []
    ensures Lower(Strip(lines[i])) in LoadBase(Some(lines))
    ensures Lower(Strip(lines[i])) != []
  {
  }

  // ---------------------------------------------------------------------------
  // Master roster
  // ---------------------------------------------------------------------------

  /** What reading one master export yields. */
  datatype Sheet =
    | Unreadable                              // the reader raised
    | NoEmailColumn                           // read, but no "Email" header
    | EmailColumn(cells: seq<Option<string>>) // the column, `None` for an empty cell

  /** The two master exports, `None` where the file does not exist. */
  datatype MasterFiles = MasterFiles(csv: Option<Sheet>, xlsx: Option<Sheet>)

  /** The export that is read: the CSV if it exists, else the workbook if it exists. */
  function ChosenSheet(master: MasterFiles): Option<Sheet>
  {
    if master.csv.Some? then master.csv else master.xlsx
  }

  /** The domain of one roster address: the second `@`-piece, lowered, then stripped. */
  function CellDomain(cell: string): (d: string)
    requires '@' in cell
    ensures '@' !in d && Normalised(d)
  {
    var piece := Split(cell, '@')[1];
    SplitPiecesWithoutSep(cell, '@', 1);
    LowerKeeps(piece, '@');
    StripKeepsOut(Lower(piece), '@');
    StripLowerNormalised(piece);
    Strip(Lower(piece))
  }

  /** A cell gives a domain when it is filled, holds an `@`, and its domain is not free mail. */
  predicate Contributes(cell: Option<string>)
  {
    cell.Some? && '@' in cell.value && CellDomain(cell.value) !in FreeMail
  }

  function SheetDomains(sheet: Sheet): set<string>
  {
    match sheet
    case EmailColumn(cells) => set c | c in cells && Contributes(c) :: CellDomain(c.value)
    case _ => {}
  }

  /** `_extract_domains_from_master`. */
  function ExtractDomains(master: MasterFiles): set<string>
  {
    match ChosenSheet(master)
    case None => {}
    case Some(sheet) => SheetDomains(sheet)
  }

  /** Which export is read, and when the dynamic part is empty. */
  lemma ExtractDomainsCases(master: MasterFiles)
    ensures master.csv.Some? ==> ExtractDomains(master) == SheetDomains(master.csv.value)
    ensures master.csv.None? && master.xlsx.Some? ==> ExtractDomains(master) == SheetDomains(master.xlsx.value)
    ensures master.csv.None? && master.xlsx.None? ==> ExtractDomains(master) == {}
    ensures ChosenSheet(master) == Some(Unreadable) ==> ExtractDomains(master) == {}
    ensures ChosenSheet(master) == Some(NoEmailColumn) ==> ExtractDomains(master) == {}
  {
  }

  /** What one export's column contributes: the domains of its contributing cells. */
  lemma SheetDomainsSound(cells: seq<Option<string>>, d: string)
    requires d in SheetDomains(EmailColumn(cells))
    ensures exists i :: 0 <= i < |cells| && Contributes(cells[i]) && d == CellDomain(cells[i].value)
    ensures d !in FreeMail && '@' !in d && Normalised(d)
  {
    var c :| c in cells && Contributes(c) && d == CellDomain(c.value);
    var i :| 0 <= i < |cells| && cells[i] == c;
  }

  /**
   * Every dynamic domain comes from a filled cell of the chosen export that
   * holds an `@`; it is that cell's domain, it is normalised, has no `@`, and is
   * not free mail.
   */
  lemma DynamicDomainsSound(master: MasterFiles, d: string)
    requires d in ExtractDomains(master)
    ensures ChosenSheet(master).Some? && ChosenSheet(master).value.EmailColumn?
    ensures var cells := ChosenSheet(master).value.cells;
      exists i :: 0 <= i < |cells| && Contributes(cells[i]) && d == CellDomain(cells[i].value)
    ensures d !in FreeMail && '@' !in d && Normalised(d)
  {
    var sheet := ChosenSheet(master).value;
    SheetDomainsSound(sheet.cells, d);
  }

  lemma SheetDomainsComplete(cells: seq<Option<string>>, i: nat)
    requires i < |cells| && Contributes(cells[i])
    ensures CellDomain(cells[i].value) in SheetDomains(EmailColumn(cells))
  {
    var c := cells[i];
    assert c in cells && Contributes(c) && CellDomain(c.value) == CellDomain(c.value);
  }

  /** Conversely every contributing cell of the chosen export gives its domain. */
  lemma DynamicDomainsComplete(master: MasterFiles, i: nat)
    requires ChosenSheet(master).Some? && ChosenSheet(master).value.EmailColumn?
    requires i < |ChosenSheet(master).value.cells|
    requires Contributes(ChosenSheet(master).value.cells[i])
    ensures CellDomain(ChosenSheet(master).value.cells[i].value) in ExtractDomains(master)
  {
    var sheet := ChosenSheet(master).value;
    SheetDomainsComplete(sheet.cells, i);
  }

  // ---------------------------------------------------------------------------
  // The whitelist
  // ---------------------------------------------------------------------------

  /** `_build_whitelist` (the body; the caching is `WhitelistCache`). */
  function BuildWhitelist(base: Option<seq<string>>, master: MasterFiles): set<string>
  {
    set d | d in LoadBase(base) + ExtractDomains(master) && d != [] :: Strip(Lower(d))
  }

  /**
   * The re-normalisation of the union changes nothing: the whitelist is exactly
   * the non-empty base and dynamic domains. No free-mail domain is removed.
   */
  lemma WhitelistExact(base: Option<seq<string>>, master: MasterFiles)
    ensures forall d :: d in BuildWhitelist(base, master) <==>
      d != [] && (d in LoadBase(base) || d in ExtractDomains(master))
  {
    var all := LoadBase(base) + ExtractDomains(master);
    forall d | d in all
      ensures Normalised(d)
    {
      if d in LoadBase(base) {
        BaseEntries(base, d);
      } else {
        DynamicDomainsSound(master, d);
      }
    }
    forall d | d in BuildWhitelist(base, master)
      ensures d != [] && d in all
    {
      var e :| e in all && e != [] && d == Strip(Lower(e));
    }
    forall d | d != [] && d in all
      ensures d in BuildWhitelist(base, master)
    {
      assert Strip(Lower(d)) == d;
    }
  }

  /** The empty string is never whitelisted. */
  lemma NoEmptyDomain(base: Option<seq<string>>, master: MasterFiles)
    ensures [] !in BuildWhitelist(base, master)
  {
    WhitelistExact(base, master);
  }

  /** A non-blank base line is whitelisted, even when it names a free-mail provider. */
  lemma BaseLineWhitelisted(lines: seq<string>, i: nat, master: MasterFiles)
    requires i < |lines| && Strip(lines[i]) != []
    ensures Lower(Strip(lines[i])) in BuildWhitelist(Some(lines), master)
  {
    WhitelistExact(Some(lines), master);
    BaseLinesListed(lines, i);
  }

  /** The non-empty domain of every contributing cell of the chosen export is whitelisted. */
  lemma RosterDomainWhitelisted(base: Option<seq<string>>, master: MasterFiles, i: nat)
    requires ChosenSheet(master).Some? && ChosenSheet(master).value.EmailColumn?
    requires i < |ChosenSheet(master).value.cells|
    requires Contributes(ChosenSheet(master).value.cells[i])
    requires CellDomain(ChosenSheet(master).value.cells[i].value) != []
    ensures CellDomain(ChosenSheet(master).value.cells[i].value) in BuildWhitelist(base, master)
  {
    DynamicDomainsComplete(master, i);
    WhitelistExact(base, master);
  }

  /** A free-mail provider listed in the base file ends up whitelisted. */
  lemma FreeMailFromBaseKept(master: MasterFiles)
    ensures "gmail.com" in FreeMail
    ensures "gmail.com" in BuildWhitelist(Some(["gmail.com"]), master)
  {
    NormalisedWhenPlain("gmail.com");
    BaseLineWhitelisted(["gmail.com"], 0, master);
  }

  /** A roster address `local@domain` with a normalised domain gives that domain. */
  lemma RosterCellDomain(local: string, domain: string)
    requires '@' !in local && '@' !in domain && Normalised(domain)
    ensures '@' in local + "@" + domain
    ensures CellDomain(local + "@" + domain) == domain
  {
    SecondPiece(local, domain, [], '@');
    assert local + "@" + domain + [] == local + "@" + domain;
  }

  /** Such an address contributes exactly when its domain is not free mail. */
  lemma RosterCellContributes(local: string, domain: string)
    requires '@' !in local && '@' !in domain && Normalised(domain)
    ensures Contributes(Some(local + "@" + domain)) <==> domain !in FreeMail
  {
    RosterCellDomain(local, domain);
  }

  /**
   * A base entry and the domain of a roster address both reach the whitelist:
   * base line `entry` and a one-cell export holding `local@domain`.
   */
  lemma BaseAndRosterExample(entry: string, local: string, domain: string)
    requires entry != [] && Normalised(entry)
    requires '@' !in local && '@' !in domain && domain != [] && Normalised(domain) && domain !in FreeMail
    ensures var master := MasterFiles(Some(EmailColumn([Some(local + "@" + domain)])), None);
      entry in BuildWhitelist(Some([entry]), master) &&
      domain in BuildWhitelist(Some([entry]), master)
  {
    var master := MasterFiles(Some(EmailColumn([Some(local + "@" + domain)])), None);
    BaseLineWhitelisted([entry], 0, master);
    RosterCellContributes(local, domain);
    RosterCellDomain(local, domain);
    RosterDomainWhitelisted(Some([entry]), master, 0);
  }

  // ---------------------------------------------------------------------------
  // The per-run cache
  // ---------------------------------------------------------------------------

  /** The data files as they stand when the whitelist is first needed. */
  datatype DataFiles = DataFiles(base: Option<seq<string>>, master: MasterFiles)

  /** The whitelist a lookup consults: the cached one if any, else one built from the files. */
  function Resolve(cached: Option<set<string>>, files: DataFiles): set<string>
  {
    if cached.Some? then cached.value else BuildWhitelist(files.base, files.master)
  }

  /**
   * The `lru_cache(maxsize=1)` around `_build_whitelist`: the first lookup
   * builds the whitelist from the files as they are then; every later lookup
   * in the run reuses that set, whatever the files hold by then.
   */
  class WhitelistCache {
    var cached: Option<set<string>>

    constructor ()
      ensures cached == None
    {
      cached := None;
    }

    /** `_build_whitelist()` through its cache. */
    method Whitelist(files: DataFiles) returns (whitelist: set<string>)
      modifies this
      ensures whitelist == Resolve(old(cached), files)
      ensures old(cached).Some? ==> whitelist == old(cached).value
      ensures cached == Some(whitelist)
    {
      if cached.None? {
        cached := Some(BuildWhitelist(files.base, files.master));
      }
      whitelist := cached.value;
    }

    /** `is_whitelisted(email)`. */
    method Check(email: string, files: DataFiles) returns (listed: bool)
      modifies this
      ensures listed == IsWhitelisted(email, Resolve(old(cached), files))
      ensures cached == Some(Resolve(old(cached), files))
    {
      var whitelist := Whitelist(files);
      listed := IsWhitelisted(email, whitelist);
    }
  }

  /** Two lookups in one run consult the same set, even if the files change in between. */
  method CheckTwice(cache: WhitelistCache, e1: string, f1: DataFiles, e2: string, f2: DataFiles)
    returns (first: bool, second: bool)
    modifies cache
    ensures first == IsWhitelisted(e1, Resolve(old(cache.cached), f1))
    ensures second == IsWhitelisted(e2, Resolve(old(cache.cached), f1))
    ensures cache.cached == Some(Resolve(old(cache.cached), f1))
  {
    first := cache.Check(e1, f1);
    second := cache.Check(e2, f2);
  }
}
