/**
 * The lead importer: header normalisation and mapping, email validation,
 * generic-address filtering, ordered row validation with deduplication by
 * email, and the per-row bookkeeping of an import.
 *
 * A CSV file arrives as its header row and its data rows; each data row is
 * the list of (header, cell) pairs in column order.
 */
module Importer {
  import opened Wrappers
  import opened Text

  // ---------------------------------------------------------------------
  // Header mapping
  // ---------------------------------------------------------------------

  /** `COLUMN_MAPPINGS`: normalised header to canonical field. */
  const ColumnMappings: map<string, string> := map[
    "email" := "email", "email_address" := "email", "work_email" := "email",
    "contact_email" := "email", "primary_email" := "email",
    "first_name" := "first_name", "firstname" := "first_name", "first" := "first_name", "given_name" := "first_name",
    "last_name" := "last_name", "lastname" := "last_name", "last" := "last_name", "surname" := "last_name",
    "family_name" := "last_name",
    "company" := "company", "company_name" := "company", "organization" := "company", "org" := "company",
    "account_name" := "company",
    "title" := "title", "job_title" := "title", "position" := "title", "role" := "title",
    "industry" := "industry", "company_industry" := "industry", "sector" := "industry",
    "company_size" := "company_size", "employees" := "company_size", "employee_count" := "company_size",
    "headcount" := "company_size", "size" := "company_size",
    "linkedin_url" := "linkedin_url", "linkedin" := "linkedin_url", "linkedin_profile" := "linkedin_url",
    "person_linkedin_url" := "linkedin_url"
  ]

  const CustomPrefix := "custom_"

  /** `header.lower().strip().replace(" ", "_")`. */
  function Normalize(header: string): (n: string)
    ensures ' ' !in n
  {
    var n := ReplaceAll(Strip(Lower(header)), " ", "_");
    ReplaceCharAt(Strip(Lower(header)), ' ', '_');
    n
  }

  /**
   * The field a header is mapped to: the canonical name of its normalised
   * form, else a custom field named `custom_` and that form.
   */
  function TargetField(mappings: map<string, string>, header: string): (f: string)
    ensures Normalize(header) in mappings ==> f == mappings[Normalize(header)]
    ensures Normalize(header) !in mappings ==> StartsWith(f, CustomPrefix) && f[|CustomPrefix|..] == Normalize(header)
  {
    var n := Normalize(header);
    if n in mappings then mappings[n] else CustomPrefix + n
  }

  /**
   * The header map `_map_headers` builds, one header after another: one
   * entry per distinct header, naming a canonical field or a custom one.
   */
  function HeaderMap(mappings: map<string, string>, headers: seq<string>): (m: map<string, string>)
    ensures forall h :: h in m <==> h in headers
    decreases |headers|
  {
    if headers == [] then map[]
    else
      var n := |headers| - 1;
      assert headers == headers[..n] + [headers[n]];
      HeaderMap(mappings, headers[..n])[headers[n] := TargetField(mappings, headers[n])]
  }

  /**
   * Each header's entry is the mapped field of its normalised form when that
   * form is a mapping key, and `custom_` followed by the form otherwise.
   */
  lemma {:induction false} HeaderMapValues(mappings: map<string, string>, headers: seq<string>, h: string)
    requires h in headers
    ensures var m := HeaderMap(mappings, headers);
      && (Normalize(h) in mappings ==> m[h] == mappings[Normalize(h)])
      && (Normalize(h) !in mappings ==> m[h] == CustomPrefix + Normalize(h))
    decreases |headers|
  {
    var n := |headers| - 1;
    if headers[n] != h {
      assert h in headers[..n] by {
        var i :| 0 <= i < |headers| && headers[i] == h;
        assert headers[..n][i] == h;
      }
      HeaderMapValues(mappings, headers[..n], h);
    }
  }

  /** Adding a header adds its one entry. */
  lemma HeaderMapSnoc(mappings: map<string, string>, headers: seq<string>, h: string)
    ensures HeaderMap(mappings, headers + [h]) == HeaderMap(mappings, headers)[h := TargetField(mappings, h)]
  {
    assert (headers + [h])[..|headers|] == headers;
  }

  /**
   * With the importer's mappings, a custom mapping of a normalised header
   * overrides the default one, and a header without a custom mapping keeps
   * its default.
   */
  lemma CustomMappingWins(customMappings: map<string, string>, header: string)
    ensures var n := Normalize(header);
      && (n in customMappings ==> TargetField(ColumnMappings + customMappings, header) == customMappings[n])
      && (n !in customMappings && n in ColumnMappings ==> TargetField(ColumnMappings + customMappings, header) == ColumnMappings[n])
      && (n !in customMappings && n !in ColumnMappings ==> TargetField(ColumnMappings + customMappings, header) == CustomPrefix + n)
  {
  }

  /** Headers that differ only in letter case or surrounding whitespace map to the same field. */
  lemma TargetFieldIgnoresCase(mappings: map<string, string>, h1: string, h2: string)
    requires Strip(Lower(h1)) == Strip(Lower(h2))
    ensures TargetField(mappings, h1) == TargetField(mappings, h2)
  {
  }

  // ---------------------------------------------------------------------
  // Email validation
  // ---------------------------------------------------------------------

  predicate IsAsciiLetter(c: char) {
    'a' <= c <= 'z' || 'A' <= c <= 'Z'
  }

  predicate IsAsciiAlnum(c: char) {
    IsAsciiLetter(c) || '0' <= c <= '9'
  }

  /** `[a-zA-Z0-9._%+-]`. */
  predicate IsLocalChar(c: char) {
    IsAsciiAlnum(c) || c == '.' || c == '_' || c == '%' || c == '+' || c == '-'
  }

  /** `[a-zA-Z0-9.-]`. */
  predicate IsDomainChar(c: char) {
    IsAsciiAlnum(c) || c == '.' || c == '-'
  }

  /**
   * `b` reads `local@host.tld` with the `@` at `k` and the final dot at `j`:
   * a non-empty local part of local characters, a non-empty host of domain
   * characters and a top-level part of at least two letters.
   */
  predicate EmailShape(b: string, k: int, j: int) {
    && 1 <= k && k + 2 <= j && j + 3 <= |b|
    && b[k] == '@' && b[j] == '.'
    && (forall i :: 0 <= i < k ==> IsLocalChar(b[i]))
    && (forall i :: k < i < j ==> IsDomainChar(b[i]))
    && (forall i :: j < i < |b| ==> IsAsciiLetter(b[i]))
  }

  /**
   * What `EMAIL_REGEX.match` accepts: the whole string has the shape, or all
   * of it but a final newline does (`$` also matches before a trailing newline).
   */
  ghost predicate RegexAccepts(e: string) {
    || HasShape(e)
    || (e != [] && e[|e| - 1] == '\n' && HasShape(e[..|e| - 1]))
  }

  ghost predicate HasShape(b: string) {
    exists k, j :: EmailShape(b, k, j)
  }

  /** The first index of `c` in `s`, or `|s|` when it does not occur. */
  function IndexOf(s: string, c: char): (i: nat)
    ensures i <= |s|
    ensures i < |s| ==> s[i] == c
    ensures forall k :: 0 <= k < i ==> s[k] != c
  {
    if s == [] || s[0] == c then 0 else 1 + IndexOf(s[1..], c)
  }

  /** The last index of `c` in `s`, or `-1` when it does not occur. */
  function LastIndexOf(s: string, c: char): (i: int)
    ensures -1 <= i < |s|
    ensures i >= 0 ==> s[i] == c
    ensures forall k :: i < k < |s| ==> s[k] != c
  {
    if s == [] then -1
    else if s[|s| - 1] == c then |s| - 1
    else LastIndexOf(s[..|s| - 1], c)
  }

  /** The string without one trailing newline. */
  function DropFinalNewline(e: string): string {
    if e != [] && e[|e| - 1] == '\n' then e[..|e| - 1] else e
  }

  /**
   * `_validate_email`, checked by hand: drop a trailing newline, split at the
   * first `@`, and check the local part, the host and the letters after the
   * last dot.
   */
  predicate ValidEmail(e: string) {
    ValidBody(DropFinalNewline(e))
  }

  /** The checks on the address without its trailing newline. */
  predicate ValidBody(b: string) {
    var k := IndexOf(b, '@');
    var j := LastIndexOf(b, '.');
    && 1 <= k < |b|
    && k + 2 <= j && j + 3 <= |b|
    && (forall i :: 0 <= i < k ==> IsLocalChar(b[i]))
    && (forall i :: k < i < j ==> IsDomainChar(b[i]))
    && (forall i :: j < i < |b| ==> IsAsciiLetter(b[i]))
  }

  /** The hand-written check accepts exactly what the regular expression matches. */
  lemma ValidEmailIsRegex(e: string)
    ensures ValidEmail(e) <==> RegexAccepts(e)
  {
    var b := DropFinalNewline(e);
    if ValidEmail(e) {
      var k, j := IndexOf(b, '@'), LastIndexOf(b, '.');
      assert EmailShape(b, k, j);
      if b != e {
        assert b == e[..|e| - 1];
      }
    }
    if HasShape(e) {
      var k, j :| EmailShape(e, k, j);
      ShapeDeterminesSplit(e, k, j);
      assert IsAsciiLetter(e[|e| - 1]);
      assert b == e;
    } else if RegexAccepts(e) {
      var k, j :| EmailShape(e[..|e| - 1], k, j);
      ShapeDeterminesSplit(e[..|e| - 1], k, j);
    }
  }

  /** In a string of that shape, the `@` is the first one and the dot the last one. */
  lemma ShapeDeterminesSplit(b: string, k: int, j: int)
    requires EmailShape(b, k, j)
    ensures IndexOf(b, '@') == k && LastIndexOf(b, '.') == j
    ensures ValidBody(b)
  {
    assert IsLocalChar(b[IndexOf(b, '@')]) || IndexOf(b, '@') >= k;
  }

  /** An accepted address contains exactly one `@`. */
  lemma ValidEmailOneAt(e: string)
    requires ValidEmail(e)
    ensures var b := DropFinalNewline(e);
      forall i :: 0 <= i < |b| && b[i] == '@' ==> i == IndexOf(b, '@')
  {
  }

  /** An address that passed `strip()` and the check has no whitespace and no newline at all. */
  lemma ValidStrippedHasNoNewline(e: string)
    requires ValidEmail(e) && (e == [] || !IsSpace(e[|e| - 1]))
    ensures '\n' !in e
  {
    assert DropFinalNewline(e) == e;
  }

  // ---------------------------------------------------------------------
  // Generic addresses
  // ---------------------------------------------------------------------

  /** The domains of `INVALID_EMAIL_PATTERNS`. */
  const GenericDomains: seq<string> := ["@example.com", "@test.com", "@mailinator.com"]

  /** The role prefixes of `INVALID_EMAIL_PATTERNS`. */
  const GenericPrefixes: seq<string> := ["test@", "noreply@", "no-reply@", "info@", "contact@", "sales@", "support@"]

  /**
   * `.*@domain$` under `re.match`: a newline-free prefix followed by the
   * domain at the very end or just before a final newline.
   */
  predicate EndsWithDomain(l: string, d: string) {
    || (EndsWith(l, d) && '\n' !in l[..|l| - |d|])
    || (EndsWith(l, d + "\n") && '\n' !in l[..|l| - |d| - 1])
  }

  /** `_is_generic_email`: case-insensitive match of any of the patterns. */
  predicate IsGenericEmail(e: string) {
    var l := Lower(e);
    || (exists i :: 0 <= i < |GenericDomains| && EndsWithDomain(l, GenericDomains[i]))
    || (exists i :: 0 <= i < |GenericPrefixes| && StartsWith(l, GenericPrefixes[i]))
  }

  /** For an address without newlines the patterns are plain suffix and prefix tests. */
  lemma GenericPlain(e: string)
    requires '\n' !in e
    ensures IsGenericEmail(e) <==>
      || (exists i :: 0 <= i < |GenericDomains| && EndsWith(Lower(e), GenericDomains[i]))
      || (exists i :: 0 <= i < |GenericPrefixes| && StartsWith(Lower(e), GenericPrefixes[i]))
  {
    var l := Lower(e);
    assert '\n' !in l by {
      forall i | 0 <= i < |l| ensures l[i] != '\n' { assert l[i] == LowerChar(e[i]); }
    }
    forall d | d in GenericDomains ensures EndsWithDomain(l, d) <==> EndsWith(l, d) {
      if EndsWith(l, d) {
        assert forall i :: 0 <= i < |l| - |d| ==> l[..|l| - |d|][i] == l[i];
      }
      if |l| > 0 {
        assert l[|l| - 1] != '\n';
      }
    }
  }

  /** A role address is generic whatever its letter case. */
  lemma GenericRoleAddress()
    ensures IsGenericEmail("Info@acme.io")
  {
    var l := Lower("Info@acme.io");
    assert l[..5] == "info@";
    assert StartsWith(l, GenericPrefixes[3]);
  }

  /** An address at a throwaway domain is generic. */
  lemma GenericThrowawayDomain()
    ensures IsGenericEmail("jane@example.com")
  {
    var l := Lower("jane@example.com");
    assert l == "jane@example.com";
    assert l[4..] == GenericDomains[0];
    assert '\n' !in l[..4];
    assert EndsWithDomain(l, GenericDomains[0]);
  }

  /** A named person's address at a company domain is not generic. */
  lemma PersonalAddressNotGeneric()
    ensures !IsGenericEmail("jane@acme.io")
  {
    var e := "jane@acme.io";
    GenericPlain(e);
    var l := Lower(e);
    assert l[0] == 'j' && l[|l| - 1] == 'o';
    forall i | 0 <= i < |GenericPrefixes| ensures !StartsWith(l, GenericPrefixes[i]) {
      assert GenericPrefixes[i][0] != 'j';
    }
    forall i | 0 <= i < |GenericDomains| ensures !EndsWith(l, GenericDomains[i]) {
      var d := GenericDomains[i];
      assert d[|d| - 1] == 'm';
    }
  }

  // ---------------------------------------------------------------------
  // Rows
  // ---------------------------------------------------------------------

  /** The `Prospect` a valid row becomes. */
  datatype Prospect = Prospect(
    email: string, firstName: string, lastName: string, company: string,
    title: Option<string>, industry: Option<string>, companySize: Option<string>,
    linkedinUrl: Option<string>, customFields: Option<map<string, string>>)

  /** The `ValidationError`s of `_process_row`, in the order they are checked. */
  datatype RowError =
    | MissingEmail
    | InvalidFormat(email: string)
    | GenericEmail(email: string)
    | MissingFirstName
    | MissingLastName
    | MissingCompany

  function ErrorMessage(e: RowError): string {
    match e
    case MissingEmail => "Missing email address"
    case InvalidFormat(email) => "Invalid email format: " + email
    case GenericEmail(email) => "Generic email skipped: " + email
    case MissingFirstName => "Missing first name"
    case MissingLastName => "Missing last name"
    case MissingCompany => "Missing company name"
  }

  datatype RowOutcome = Accepted(prospect: Prospect) | Duplicate | Rejected(error: RowError)

  /** A row's cells under their field names: canonical fields and custom fields. */
  datatype Mapped = Mapped(fields: map<string, string>, custom: map<string, string>)

  /** Column `i` of `row` has a mapped header whose field is `f`. */
  predicate ColumnFor(row: seq<(string, string)>, headerMap: map<string, string>, i: int, f: string) {
    0 <= i < |row| && row[i].0 in headerMap && headerMap[row[i].0] == f
  }

  /**
   * The mapping loop of `_process_row`: each cell is stripped; cells of
   * custom fields are kept only when non-empty, under the field name with
   * "custom_" removed; for every other field the last column wins, even
   * when it is empty.
   */
  function MapRow(row: seq<(string, string)>, headerMap: map<string, string>): (m: Mapped)
    ensures forall f :: f in m.fields ==> !StartsWith(f, CustomPrefix)
    ensures forall k :: k in m.custom ==> m.custom[k] != []
    decreases |row|
  {
    if row == [] then Mapped(map[], map[])
    else
      var n := |row| - 1;
      var m := MapRow(row[..n], headerMap);
      var header := row[n].0;
      if header !in headerMap then m
      else
        var field := headerMap[header];
        var clean := Strip(row[n].1);
        if StartsWith(field, CustomPrefix) then
          if clean == [] then m else m.(custom := m.custom[ReplaceAll(field, CustomPrefix, "") := clean])
        else
          m.(fields := m.fields[field := clean])
  }

  /** The canonical fields after one more column: only a canonical column changes them. */
  lemma MapRowFieldsStep(row: seq<(string, string)>, headerMap: map<string, string>)
    requires row != []
    ensures var n := |row| - 1;
      var h := row[n].0;
      var before := MapRow(row[..n], headerMap).fields;
      MapRow(row, headerMap).fields ==
        if h in headerMap && !StartsWith(headerMap[h], CustomPrefix) then before[headerMap[h] := Strip(row[n].1)] else before
  {
  }

  /**
   * A canonical field holds the stripped cell of the LAST column mapped to
   * it, even when that cell is empty and an earlier one was not.
   */
  lemma {:induction false} MapRowLastWins(row: seq<(string, string)>, headerMap: map<string, string>, f: string) returns (i: int)
    requires f in MapRow(row, headerMap).fields
    ensures ColumnFor(row, headerMap, i, f) && MapRow(row, headerMap).fields[f] == Strip(row[i].1)
    ensures forall j :: i < j < |row| ==> !ColumnFor(row, headerMap, j, f)
    decreases |row|
  {
    var n := |row| - 1;
    MapRowFieldsStep(row, headerMap);
    if ColumnFor(row, headerMap, n, f) {
      i := n;
    } else {
      var prefix := row[..n];
      i := MapRowLastWins(prefix, headerMap, f);
      assert prefix[i] == row[i];
      forall j | i < j < |row| ensures !ColumnFor(row, headerMap, j, f) {
        if j < n {
          assert prefix[j] == row[j] && !ColumnFor(prefix, headerMap, j, f);
        }
      }
    }
  }

  /** Every column whose header maps to a canonical field puts that field in the row. */
  lemma {:induction false} MapRowHasField(row: seq<(string, string)>, headerMap: map<string, string>, i: int, f: string)
    requires ColumnFor(row, headerMap, i, f) && !StartsWith(f, CustomPrefix)
    ensures f in MapRow(row, headerMap).fields
    decreases |row|
  {
    var n := |row| - 1;
    MapRowFieldsStep(row, headerMap);
    if i < n {
      var prefix := row[..n];
      assert prefix[i] == row[i];
      MapRowHasField(prefix, headerMap, i, f);
    }
  }

  /** Column `i` of `row` has a non-empty cell under a custom field whose key is `k`. */
  predicate CustomColumnFor(row: seq<(string, string)>, headerMap: map<string, string>, i: int, k: string) {
    && 0 <= i < |row| && row[i].0 in headerMap
    && StartsWith(headerMap[row[i].0], CustomPrefix)
    && ReplaceAll(headerMap[row[i].0], CustomPrefix, "") == k
    && Strip(row[i].1) != []
  }

  /** The custom fields after one more column: only a non-empty custom cell changes them. */
  lemma MapRowCustomStep(row: seq<(string, string)>, headerMap: map<string, string>)
    requires row != []
    ensures var n := |row| - 1;
      var before, after := MapRow(row[..n], headerMap).custom, MapRow(row, headerMap).custom;
      && (forall k :: CustomColumnFor(row, headerMap, n, k) ==> after == before[k := Strip(row[n].1)])
      && ((forall k :: !CustomColumnFor(row, headerMap, n, k)) ==> after == before)
  {
    var n := |row| - 1;
    var h := row[n].0;
    if h in headerMap && StartsWith(headerMap[h], CustomPrefix) && Strip(row[n].1) != [] {
      assert CustomColumnFor(row, headerMap, n, ReplaceAll(headerMap[h], CustomPrefix, ""));
    }
  }

  /**
   * A custom key is a custom field name with every "custom_" removed, and it
   * holds the stripped cell of the LAST column with a non-empty cell under
   * that key; empty custom cells never overwrite.
   */
  lemma {:induction false} MapRowCustomLastWins(row: seq<(string, string)>, headerMap: map<string, string>, k: string) returns (i: int)
    requires k in MapRow(row, headerMap).custom
    ensures CustomColumnFor(row, headerMap, i, k) && MapRow(row, headerMap).custom[k] == Strip(row[i].1)
    ensures forall j :: i < j < |row| ==> !CustomColumnFor(row, headerMap, j, k)
    decreases |row|
  {
    var n := |row| - 1;
    MapRowCustomStep(row, headerMap);
    if CustomColumnFor(row, headerMap, n, k) {
      i := n;
    } else {
      var prefix := row[..n];
      i := MapRowCustomLastWins(prefix, headerMap, k);
      assert prefix[i] == row[i];
      forall j | i < j < |row| ensures !CustomColumnFor(row, headerMap, j, k) {
        if j < n {
          assert prefix[j] == row[j] && !CustomColumnFor(prefix, headerMap, j, k);
        }
      }
    }
  }

  /** Every non-empty custom cell puts its key among the custom fields. */
  lemma {:induction false} MapRowHasCustom(row: seq<(string, string)>, headerMap: map<string, string>, i: int, k: string)
    requires CustomColumnFor(row, headerMap, i, k)
    ensures k in MapRow(row, headerMap).custom
    decreases |row|
  {
    var n := |row| - 1;
    MapRowCustomStep(row, headerMap);
    if i < n {
      var prefix := row[..n];
      assert prefix[i] == row[i];
      MapRowHasCustom(prefix, headerMap, i, k);
    }
  }

  function Get(m: map<string, string>, k: string): string {
    if k in m then m[k] else ""
  }

  function Lookup(m: map<string, string>, k: string): Option<string> {
    if k in m then Some(m[k]) else None
  }

  /** `mapped.get("email", "").lower()`. */
  function RowEmail(row: seq<(string, string)>, headerMap: map<string, string>): string {
    Lower(Get(MapRow(row, headerMap).fields, "email"))
  }

  /** Whether a row's email passes the first three checks. */
  predicate EmailAccepted(email: string, skipGeneric: bool) {
    email != [] && ValidEmail(email) && !(skipGeneric && IsGenericEmail(email))
  }

  /** The first of the three email checks that a rejected email fails. */
  function EmailError(email: string): RowError {
    if email == [] then MissingEmail
    else if !ValidEmail(email) then InvalidFormat(email)
    else GenericEmail(email)
  }

  /** A row's outcome and the seen set afterwards. */
  datatype RowStep = RowStep(outcome: RowOutcome, seen: set<string>)

  /**
   * `_process_row`: missing, malformed and (when skipped) generic emails are
   * rejected; a seen email is a duplicate; otherwise the email is recorded as
   * seen and only then are first name, last name and company checked.
   */
  function ProcessRowSpec(seen: set<string>, skipGeneric: bool, row: seq<(string, string)>, headerMap: map<string, string>): (r: RowStep)
    ensures seen <= r.seen && r.seen - seen <= {RowEmail(row, headerMap)}
  {
    var m := MapRow(row, headerMap);
    var email := Lower(Get(m.fields, "email"));
    if !EmailAccepted(email, skipGeneric) then RowStep(Rejected(EmailError(email)), seen)
    else if email in seen then RowStep(Duplicate, seen)
    else NameChecks(email, m, seen + {email})
  }

  /**
   * The checks `_process_row` makes once the email is recorded as seen: first
   * name, last name and company, in that order; a row that passes them all
   * becomes a prospect.
   */
  function NameChecks(email: string, m: Mapped, seen: set<string>): (r: RowStep)
    ensures r.seen == seen && r.outcome != Duplicate
    ensures r.outcome.Accepted? ==> r.outcome.prospect.email == email
  {
    var first, last, company := Get(m.fields, "first_name"), Get(m.fields, "last_name"), Get(m.fields, "company");
    if first == [] then RowStep(Rejected(MissingFirstName), seen)
    else if last == [] then RowStep(Rejected(MissingLastName), seen)
    else if company == [] then RowStep(Rejected(MissingCompany), seen)
    else
      RowStep(Accepted(Prospect(email, first, last, company,
                                Lookup(m.fields, "title"), Lookup(m.fields, "industry"),
                                Lookup(m.fields, "company_size"), Lookup(m.fields, "linkedin_url"),
                                if m.custom == map[] then None else Some(m.custom))), seen)
  }

  /**
   * The seen set grows by the row's email exactly when the email passes the
   * first three checks; the row is a duplicate exactly when that email was
   * already seen; an accepted row's email is new.
   */
  lemma RowStepEffect(seen: set<string>, skipGeneric: bool, row: seq<(string, string)>, headerMap: map<string, string>)
    ensures var r := ProcessRowSpec(seen, skipGeneric, row, headerMap);
      var email := RowEmail(row, headerMap);
      && r.seen == (if EmailAccepted(email, skipGeneric) then seen + {email} else seen)
      && (r.outcome == Duplicate <==> EmailAccepted(email, skipGeneric) && email in seen)
      && (r.outcome.Accepted? ==> EmailAccepted(email, skipGeneric) && r.outcome.prospect.email == email && email !in seen)
  {
    var email := RowEmail(row, headerMap);
    var r := ProcessRowSpec(seen, skipGeneric, row, headerMap);
    if !EmailAccepted(email, skipGeneric) {
      assert r == RowStep(Rejected(EmailError(email)), seen);
    } else if email in seen {
      assert r == RowStep(Duplicate, seen);
    } else {
      assert r == NameChecks(email, MapRow(row, headerMap), seen + {email});
    }
  }

  lemma {:induction false} LowerIdempotent(s: string)
    ensures Lower(Lower(s)) == Lower(s)
  {
    assert forall i :: 0 <= i < |s| ==> LowerChar(LowerChar(s[i])) == LowerChar(s[i]);
  }

  /** An accepted prospect has a valid lowercase email and all three required fields. */
  lemma AcceptedProspect(seen: set<string>, skipGeneric: bool, row: seq<(string, string)>, headerMap: map<string, string>)
    requires ProcessRowSpec(seen, skipGeneric, row, headerMap).outcome.Accepted?
    ensures var p := ProcessRowSpec(seen, skipGeneric, row, headerMap).outcome.prospect;
      && ValidEmail(p.email) && Lower(p.email) == p.email && p.email !in seen
      && p.firstName != [] && p.lastName != [] && p.company != []
      && (skipGeneric ==> !IsGenericEmail(p.email))
      && (p.customFields.Some? ==> p.customFields.value != map[])
      && (p.customFields.None? <==> MapRow(row, headerMap).custom == map[])
      && (p.customFields.Some? ==> p.customFields.value == MapRow(row, headerMap).custom)
      && var f := MapRow(row, headerMap).fields;
      && p.firstName == Get(f, "first_name") && p.lastName == Get(f, "last_name") && p.company == Get(f, "company")
      && p.title == Lookup(f, "title") && p.industry == Lookup(f, "industry")
      && p.companySize == Lookup(f, "company_size") && p.linkedinUrl == Lookup(f, "linkedin_url")
  {
    RowStepEffect(seen, skipGeneric, row, headerMap);
    LowerIdempotent(Get(MapRow(row, headerMap).fields, "email"));
  }

  /**
   * The email is recorded before the name and company checks: a row rejected
   * for a missing name still makes a later row with the same email a duplicate.
   */
  lemma SeenBeforeNameChecks(seen: set<string>, skipGeneric: bool, r1: seq<(string, string)>, r2: seq<(string, string)>, headerMap: map<string, string>)
    requires RowEmail(r1, headerMap) == RowEmail(r2, headerMap)
    requires var o := ProcessRowSpec(seen, skipGeneric, r1, headerMap).outcome;
      o == Rejected(MissingFirstName) || o == Rejected(MissingLastName) || o == Rejected(MissingCompany)
    ensures ProcessRowSpec(ProcessRowSpec(seen, skipGeneric, r1, headerMap).seen, skipGeneric, r2, headerMap).outcome == Duplicate
  {
    RowStepEffect(seen, skipGeneric, r1, headerMap);
    RowStepEffect(ProcessRowSpec(seen, skipGeneric, r1, headerMap).seen, skipGeneric, r2, headerMap);
  }

  /** A rejected email is reported with its first failing check; an accepted one never is. */
  predicate EmailOutcome(email: string, skipGeneric: bool, o: RowOutcome) {
    if EmailAccepted(email, skipGeneric) then
      o == Duplicate || o.Accepted? || o == Rejected(MissingFirstName)
      || o == Rejected(MissingLastName) || o == Rejected(MissingCompany)
    else o == Rejected(EmailError(email))
  }

  /** `_process_row` settles the email checks before anything else. */
  lemma RowEmailOutcome(seen: set<string>, skipGeneric: bool, row: seq<(string, string)>, headerMap: map<string, string>)
    ensures EmailOutcome(RowEmail(row, headerMap), skipGeneric, ProcessRowSpec(seen, skipGeneric, row, headerMap).outcome)
  {
  }

  /** Each email check fails exactly when the outcome names that check. */
  lemma EmailChecksInOrder(email: string, skipGeneric: bool, o: RowOutcome)
    requires EmailOutcome(email, skipGeneric, o)
    ensures && (email == [] <==> o == Rejected(MissingEmail))
      && (email != [] && !ValidEmail(email) <==> o == Rejected(InvalidFormat(email)))
      && (email != [] && ValidEmail(email) && skipGeneric && IsGenericEmail(email) <==> o == Rejected(GenericEmail(email)))
  {
  }

  /** A row whose email fails a check is rejected for that first failing check. */
  lemma CheckOrder(seen: set<string>, skipGeneric: bool, row: seq<(string, string)>, headerMap: map<string, string>)
    ensures var email := RowEmail(row, headerMap);
      var o := ProcessRowSpec(seen, skipGeneric, row, headerMap).outcome;
      && (email == [] <==> o == Rejected(MissingEmail))
      && (email != [] && !ValidEmail(email) <==> o == Rejected(InvalidFormat(email)))
      && (email != [] && ValidEmail(email) && skipGeneric && IsGenericEmail(email) <==> o == Rejected(GenericEmail(email)))
  {
    RowEmailOutcome(seen, skipGeneric, row, headerMap);
    EmailChecksInOrder(RowEmail(row, headerMap), skipGeneric, ProcessRowSpec(seen, skipGeneric, row, headerMap).outcome);
  }

  /**
   * After the email checks and the duplicate check, the name and company
   * checks run in order: first name, then last name, then company, each
   * reported only when every earlier one passed.
   */
  lemma NameChecksInOrder(seen: set<string>, skipGeneric: bool, row: seq<(string, string)>, headerMap: map<string, string>)
    ensures var fields := MapRow(row, headerMap).fields;
      var email := RowEmail(row, headerMap);
      var first, last, company := Get(fields, "first_name"), Get(fields, "last_name"), Get(fields, "company");
      var o := ProcessRowSpec(seen, skipGeneric, row, headerMap).outcome;
      var reached := EmailAccepted(email, skipGeneric) && email !in seen;
      && (o == Rejected(MissingFirstName) <==> reached && first == [])
      && (o == Rejected(MissingLastName) <==> reached && first != [] && last == [])
      && (o == Rejected(MissingCompany) <==> reached && first != [] && last != [] && company == [])
      && (o.Accepted? <==> reached && first != [] && last != [] && company != [])
  {
  }

  // ---------------------------------------------------------------------
  // An import
  // ---------------------------------------------------------------------

  /** One entry of `ImportResult.errors`. */
  datatype ImportError = ImportError(rowNum: int, message: string, data: seq<(string, string)>)

  /** `ImportResult`. */
  datatype ImportResult = ImportResult(imported: nat, duplicates: nat, invalid: nat,
                                       prospects: seq<Prospect>, errors: seq<ImportError>)

  /** `total_processed`. */
  function TotalProcessed(r: ImportResult): int {
    r.imported + r.duplicates + r.invalid
  }

  datatype ImportState = ImportState(result: ImportResult, seen: set<string>)

  /** The result of one row added to the running result. */
  function Record(r: ImportResult, outcome: RowOutcome, rowNum: int, row: seq<(string, string)>): (r': ImportResult)
    ensures TotalProcessed(r') == TotalProcessed(r) + 1
    ensures |r.prospects| <= |r'.prospects| && r'.prospects[..|r.prospects|] == r.prospects
    ensures |r.errors| <= |r'.errors| && r'.errors[..|r.errors|] == r.errors
  {
    match outcome
    case Duplicate => r.(duplicates := r.duplicates + 1)
    case Accepted(p) => r.(prospects := r.prospects + [p], imported := r.imported + 1)
    case Rejected(e) => r.(invalid := r.invalid + 1, errors := r.errors + [ImportError(rowNum, ErrorMessage(e), row)])
  }

  /** Recording a row adds one to exactly one counter and one entry to the matching list. */
  lemma RecordCounts(r: ImportResult, outcome: RowOutcome, rowNum: int, row: seq<(string, string)>)
    ensures var r' := Record(r, outcome, rowNum, row);
      && r'.imported + r'.duplicates + r'.invalid == r.imported + r.duplicates + r.invalid + 1
      && |r'.prospects| - r'.imported == |r.prospects| - r.imported
      && |r'.errors| - r'.invalid == |r.errors| - r.invalid
      && |r.errors| <= |r'.errors| <= |r.errors| + 1
      && (forall i :: 0 <= i < |r.errors| ==> r'.errors[i] == r.errors[i])
      && (|r'.errors| > |r.errors| ==> r'.errors[|r.errors|].rowNum == rowNum)
  {
  }

  /** A decision on one row: its outcome and the seen set afterwards, given the emails seen so far. */
  type RowDecider = (set<string>, seq<(string, string)>) -> RowStep

  /**
   * The row loop of `import_csv` with the decision on each row left open:
   * rows numbered from 2, from an empty result and an empty seen set.
   */
  function ImportLoop(decide: RowDecider, rows: seq<seq<(string, string)>>): ImportState
    decreases |rows|
  {
    if rows == [] then ImportState(ImportResult(0, 0, 0, [], []), {})
    else
      var n := |rows| - 1;
      var s := ImportLoop(decide, rows[..n]);
      var step := decide(s.seen, rows[n]);
      ImportState(Record(s.result, step.outcome, n + 2, rows[n]), step.seen)
  }

  /** The decision `import_csv` makes on a row: `_process_row`. */
  function RowDecision(skipGeneric: bool, headerMap: map<string, string>): RowDecider {
    (seen, row) => ProcessRowSpec(seen, skipGeneric, row, headerMap)
  }

  /** The row loop of `import_csv` over `rows`. */
  function ImportRows(skipGeneric: bool, headerMap: map<string, string>, rows: seq<seq<(string, string)>>): ImportState {
    ImportLoop(RowDecision(skipGeneric, headerMap), rows)
  }

  predicate DistinctEmails(ps: seq<Prospect>) {
    forall i, j :: 0 <= i < j < |ps| ==> ps[i].email != ps[j].email
  }

  predicate RowNumbersWithin(errors: seq<ImportError>, lo: int, hi: int) {
    forall i :: 0 <= i < |errors| ==> lo <= errors[i].rowNum < hi
  }

  /** The result after the last row is the result before it with that row's outcome recorded. */
  lemma ImportLoopLast(decide: RowDecider, rows: seq<seq<(string, string)>>) returns (o: RowOutcome)
    requires rows != []
    ensures ImportLoop(decide, rows).result ==
      Record(ImportLoop(decide, rows[..|rows| - 1]).result, o, |rows| + 1, rows[|rows| - 1])
  {
    var n := |rows| - 1;
    o := decide(ImportLoop(decide, rows[..n]).seen, rows[n]).outcome;
  }

  /** Recording one more row keeps every row counted once, with a prospect per import and an error per invalid row. */
  lemma CountsStep(before: ImportResult, after: ImportResult, o: RowOutcome, rowNum: int, row: seq<(string, string)>, n: nat)
    requires before.imported + before.duplicates + before.invalid == n
    requires |before.prospects| == before.imported && |before.errors| == before.invalid
    requires after == Record(before, o, rowNum, row)
    ensures after.imported + after.duplicates + after.invalid == n + 1
    ensures |after.prospects| == after.imported && |after.errors| == after.invalid
  {
    RecordCounts(before, o, rowNum, row);
  }

  /**
   * Whatever the decision on each row, every row is counted exactly once,
   * with a prospect per import and an error per invalid row.
   */
  lemma {:induction false} ImportCounts(decide: RowDecider, rows: seq<seq<(string, string)>>)
    ensures var r := ImportLoop(decide, rows).result;
      && r.imported + r.duplicates + r.invalid == |rows|
      && |r.prospects| == r.imported
      && |r.errors| == r.invalid
    decreases |rows|
  {
    if rows != [] {
      var n := |rows| - 1;
      ImportCounts(decide, rows[..n]);
      var o := ImportLoopLast(decide, rows);
      CountsStep(ImportLoop(decide, rows[..n]).result, ImportLoop(decide, rows).result, o, n + 2, rows[n], n);
    }
  }

  /** Errors carry the numbers of their rows, counted from 2 as the header is line 1. */
  lemma {:induction false} ImportRowNumbers(decide: RowDecider, rows: seq<seq<(string, string)>>)
    ensures RowNumbersWithin(ImportLoop(decide, rows).result.errors, 2, |rows| + 2)
    decreases |rows|
  {
    if rows != [] {
      var n := |rows| - 1;
      ImportRowNumbers(decide, rows[..n]);
      var before := ImportLoop(decide, rows[..n]).result;
      var o := ImportLoopLast(decide, rows);
      var r := Record(before, o, n + 2, rows[n]);
      RecordCounts(before, o, n + 2, rows[n]);
      forall i | 0 <= i < |r.errors| ensures 2 <= r.errors[i].rowNum < |rows| + 2 {
        if i < |before.errors| {
          assert r.errors[i] == before.errors[i];
        }
      }
    }
  }

  /** `total_processed` is the number of data rows. */
  lemma TotalIsRowCount(skipGeneric: bool, headerMap: map<string, string>, rows: seq<seq<(string, string)>>)
    ensures TotalProcessed(ImportRows(skipGeneric, headerMap, rows).result) == |rows|
  {
    ImportCounts(RowDecision(skipGeneric, headerMap), rows);
  }

  /** One more row: the loop body of `import_csv`. */
  lemma ImportRowsStep(skipGeneric: bool, headerMap: map<string, string>, rows: seq<seq<(string, string)>>, i: nat)
    requires i < |rows|
    ensures var s := ImportRows(skipGeneric, headerMap, rows[..i]);
      var step := ProcessRowSpec(s.seen, skipGeneric, rows[i], headerMap);
      ImportRows(skipGeneric, headerMap, rows[..i + 1]) == ImportState(Record(s.result, step.outcome, i + 2, rows[i]), step.seen)
  {
    assert rows[..i + 1][..i] == rows[..i];
  }

  /** The prospects' emails are valid, lowercase, pairwise distinct and all in `seen`. */
  predicate ProspectsOk(ps: seq<Prospect>, seen: set<string>) {
    && (forall i :: 0 <= i < |ps| ==> ValidEmail(ps[i].email) && Lower(ps[i].email) == ps[i].email && ps[i].email in seen)
    && DistinctEmails(ps)
  }

  /** A prospect with a new, valid, lowercase email keeps the prospects in order. */
  lemma ExtendProspects(ps: seq<Prospect>, seen: set<string>, seen': set<string>, p: Prospect)
    requires ProspectsOk(ps, seen) && seen <= seen'
    requires ValidEmail(p.email) && Lower(p.email) == p.email && p.email !in seen && p.email in seen'
    ensures ProspectsOk(ps + [p], seen')
  {
    var qs := ps + [p];
    forall i, j | 0 <= i < j < |qs| ensures qs[i].email != qs[j].email {
      if j == |ps| {
        assert qs[i] == ps[i] && ps[i].email in seen;
      } else {
        assert qs[i] == ps[i] && qs[j] == ps[j];
      }
    }
  }

  /** The prospects of an import have valid, lowercase, pairwise distinct emails, all in the seen set. */
  lemma {:induction false} ImportedEmails(skipGeneric: bool, headerMap: map<string, string>, rows: seq<seq<(string, string)>>)
    ensures var s := ImportRows(skipGeneric, headerMap, rows);
      ProspectsOk(s.result.prospects, s.seen)
    decreases |rows|
  {
    if rows != [] {
      var n := |rows| - 1;
      var s := ImportRows(skipGeneric, headerMap, rows[..n]);
      ImportedEmails(skipGeneric, headerMap, rows[..n]);
      var step := ProcessRowSpec(s.seen, skipGeneric, rows[n], headerMap);
      RowStepEffect(s.seen, skipGeneric, rows[n], headerMap);
      ImportRowsStep(skipGeneric, headerMap, rows, n);
      assert rows[..n + 1] == rows;
      if step.outcome.Accepted? {
        AcceptedProspect(s.seen, skipGeneric, rows[n], headerMap);
        ExtendProspects(s.result.prospects, s.seen, step.seen, step.outcome.prospect);
      } else {
        assert ProspectsOk(s.result.prospects, step.seen);
      }
    }
  }

  /** Importing the same complete row twice imports it once and counts one duplicate. */
  lemma RepeatedRow(skipGeneric: bool, headerMap: map<string, string>, row: seq<(string, string)>)
    requires ProcessRowSpec({}, skipGeneric, row, headerMap).outcome.Accepted?
    ensures var r := ImportRows(skipGeneric, headerMap, [row, row]).result;
      r.imported == 1 && r.duplicates == 1 && r.invalid == 0
  {
    var email := RowEmail(row, headerMap);
    AcceptedThenDuplicate(skipGeneric, headerMap, row);
    var o1 := ProcessRowSpec({}, skipGeneric, row, headerMap).outcome;
    ImportTwoRows(RowDecision(skipGeneric, headerMap), row, row);
    assert ImportRows(skipGeneric, headerMap, [row, row]).result
        == Record(Record(ImportResult(0, 0, 0, [], []), o1, 2, row), Duplicate, 3, row);
  }

  /** A row accepted first records its email, so the same row next is a duplicate. */
  lemma AcceptedThenDuplicate(skipGeneric: bool, headerMap: map<string, string>, row: seq<(string, string)>)
    requires ProcessRowSpec({}, skipGeneric, row, headerMap).outcome.Accepted?
    ensures var first := ProcessRowSpec({}, skipGeneric, row, headerMap);
      ProcessRowSpec(first.seen, skipGeneric, row, headerMap).outcome == Duplicate
  {
    var email := RowEmail(row, headerMap);
    RowStepEffect({}, skipGeneric, row, headerMap);
    RowStepEffect({email}, skipGeneric, row, headerMap);
  }

  /** Two rows: the second is decided on the seen set the first left, and both are recorded in order. */
  lemma ImportTwoRows(decide: RowDecider, a: seq<(string, string)>, b: seq<(string, string)>)
    ensures var first := decide({}, a);
      var second := decide(first.seen, b);
      ImportLoop(decide, [a, b]).result == Record(Record(ImportResult(0, 0, 0, [], []), first.outcome, 2, a), second.outcome, 3, b)
  {
    var p := [a, b][..1];
    assert |p| == 1 && p[0] == a;
    var e := p[..0];
    assert |e| == 0;
    assert ImportLoop(decide, e) == ImportState(ImportResult(0, 0, 0, [], []), {});
    ImportLoopStep(decide, p);
    ImportLoopStep(decide, [a, b]);
  }

  /** The last row is decided on the seen set the rows before it left, and recorded with its row number. */
  lemma ImportLoopStep(decide: RowDecider, rows: seq<seq<(string, string)>>)
    requires rows != []
    ensures var n := |rows| - 1;
      var s := ImportLoop(decide, rows[..n]);
      var step := decide(s.seen, rows[n]);
      ImportLoop(decide, rows) == ImportState(Record(s.result, step.outcome, n + 2, rows[n]), step.seen)
  {
  }

  /** The required columns no header maps to (`validate_file`). */
  function MissingRequired(headerMap: map<string, string>): (missing: set<string>)
    ensures missing <= {"email", "first_name", "last_name", "company"}
    ensures forall f :: f in {"email", "first_name", "last_name", "company"} ==>
      (f in missing <==> forall h :: h in headerMap ==> headerMap[h] != f)
  {
    {"email", "first_name", "last_name", "company"} - headerMap.Values
  }

  /** Why `import_csv` raises before reading any row. */
  datatype ImportFailure = NoHeaders

  /** `LeadImporter`: its column mappings, its generic-address switch and the emails seen so far. */
  class LeadImporter {
    const columnMappings: map<string, string>
    const skipGenericEmails: bool
    var seenEmails: set<string>

    /** The defaults, overridden by the custom mappings. */
    constructor (customMappings: map<string, string>, skipGenericEmails: bool)
      ensures columnMappings == ColumnMappings + customMappings
      ensures this.skipGenericEmails == skipGenericEmails && seenEmails == {}
    {
      columnMappings := ColumnMappings + customMappings;
      this.skipGenericEmails := skipGenericEmails;
      seenEmails := {};
    }

    /** `_map_headers`: every header gets an entry. */
    method MapHeaders(headers: seq<string>) returns (headerMap: map<string, string>)
      ensures headerMap == HeaderMap(columnMappings, headers)
      ensures headerMap.Keys == set h | h in headers
    {
      headerMap := map[];
      var i := 0;
      while i < |headers|
        invariant 0 <= i <= |headers|
        invariant headerMap == HeaderMap(columnMappings, headers[..i])
      {
        ghost var before := headerMap;
        var normalized := Normalize(headers[i]);
        if normalized in columnMappings {
          headerMap := headerMap[headers[i] := columnMappings[normalized]];
        } else {
          headerMap := headerMap[headers[i] := CustomPrefix + normalized];
        }
        assert headerMap == before[headers[i] := TargetField(columnMappings, headers[i])];
        assert headers[..i + 1][..i] == headers[..i];
        i := i + 1;
      }
      assert headers[..i] == headers;
    }

    /** `_process_row`. */
    method ProcessRow(row: seq<(string, string)>, headerMap: map<string, string>) returns (outcome: RowOutcome)
      modifies this
      ensures RowStep(outcome, seenEmails) == ProcessRowSpec(old(seenEmails), skipGenericEmails, row, headerMap)
    {
      var step := ProcessRowSpec(seenEmails, skipGenericEmails, row, headerMap);
      outcome := step.outcome;
      seenEmails := step.seen;
    }

    /** `import_csv` on a file with header row `headers` (None for an empty file) and data rows `rows`. */
    method ImportCsv(headers: Option<seq<string>>, rows: seq<seq<(string, string)>>) returns (r: Result<ImportResult, ImportFailure>)
      modifies this
      ensures headers.None? ==> r == Failure(NoHeaders) && seenEmails == {}
      ensures headers.Some? ==>
        var s := ImportRows(skipGenericEmails, HeaderMap(columnMappings, headers.value), rows);
        r == Success(s.result) && seenEmails == s.seen
    {
      seenEmails := {};
      if headers.None? {
        return Failure(NoHeaders);
      }
      var headerMap := MapHeaders(headers.value);
      var result := ProcessRows(headerMap, rows);
      r := Success(result);
    }

    /** The row loop of `import_csv`, from an empty seen set. */
    method ProcessRows(headerMap: map<string, string>, rows: seq<seq<(string, string)>>) returns (result: ImportResult)
      requires seenEmails == {}
      modifies this
      ensures ImportState(result, seenEmails) == ImportRows(skipGenericEmails, headerMap, rows)
    {
      result := ImportResult(0, 0, 0, [], []);
      var i := 0;
      while i < |rows|
        invariant 0 <= i <= |rows|
        invariant ImportState(result, seenEmails) == ImportRows(skipGenericEmails, headerMap, rows[..i])
      {
        ImportRowsStep(skipGenericEmails, headerMap, rows, i);
        var outcome := ProcessRow(rows[i], headerMap);
        result := Record(result, outcome, i + 2, rows[i]);
        i := i + 1;
      }
      assert rows[..i] == rows;
    }
  }
}
