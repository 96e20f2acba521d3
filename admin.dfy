/**
 * The administrator password change of the dashboard: PHP's `trim` and
 * `addslashes`, the ordered validation chain of `changeAdminPassword`, and
 * `updateConfigValue`, which rewrites the first `define('KEY'...` line of
 * config.php.
 *
 * The file system is abstracted: the config file is its list of lines (as
 * PHP's `file` returns them, each with its newline), and whether the file
 * exists and is writable, whether the backup copy succeeds and whether the
 * final write succeeds are given as values.
 */
module AdminPassword {
  import opened Wire
  import opened Reply

  // ---------------------------------------------------------------------
  // trim
  // ---------------------------------------------------------------------

  /** The bytes PHP's `trim` strips by default: space, tab, LF, CR, NUL and vertical tab. */
  predicate Blank(c: Octet)
  {
    c == ' ' || c == '\t' || c == '\n' || c == '\r' || c == 0 as char || c == 11 as char
  }

  predicate AllBlank(s: Bytes)
  {
    forall k :: 0 <= k < |s| ==> Blank(s[k])
  }

  /** A string with nothing for `trim` to strip. */
  predicate Trimmed(t: Bytes)
  {
    |t| == 0 || (!Blank(t[0]) && !Blank(t[|t| - 1]))
  }

  /** Where the run of blanks starting at `i` ends. */
  function BlanksFrom(s: Bytes, i: nat): (j: nat)
    requires i <= |s|
    ensures i <= j <= |s|
    ensures forall k :: i <= k < j ==> Blank(s[k])
    ensures j < |s| ==> !Blank(s[j])
    decreases |s| - i
  {
    if i < |s| && Blank(s[i]) then BlanksFrom(s, i + 1) else i
  }

  /** Where the run of blanks ending at `j` begins, going back no further than `lo`. */
  function BlanksBefore(s: Bytes, lo: nat, j: nat): (i: nat)
    requires lo <= j <= |s|
    ensures lo <= i <= j
    ensures forall k :: i <= k < j ==> Blank(s[k])
    ensures i > lo ==> !Blank(s[i - 1])
    decreases j
  {
    if j > lo && Blank(s[j - 1]) then BlanksBefore(s, lo, j - 1) else j
  }

  /** How many bytes `trim` strips from the front. */
  function Lead(s: Bytes): nat
    ensures Lead(s) <= |s|
  {
    BlanksFrom(s, 0)
  }

  /** Where the part `trim` keeps ends. */
  function Last(s: Bytes): nat
    ensures Lead(s) <= Last(s) <= |s|
  {
    BlanksBefore(s, Lead(s), |s|)
  }

  /** PHP `trim` with its default character list: blanks stripped from both ends. */
  function Trim(s: Bytes): (t: Bytes)
    ensures |t| <= |s| && Trimmed(t)
  {
    s[Lead(s)..Last(s)]
  }

  /** `trim` keeps the middle piece between two blank runs, and it has nothing left to strip. */
  lemma TrimShape(s: Bytes)
    ensures Trimmed(Trim(s))
    ensures AllBlank(s[..Lead(s)]) && AllBlank(s[Last(s)..])
  {
    assert forall k :: 0 <= k < Lead(s) ==> s[..Lead(s)][k] == s[k];
    assert forall k :: 0 <= k < |s| - Last(s) ==> s[Last(s)..][k] == s[Last(s) + k];
  }

  /** The run of blanks from `i` ends at the first non-blank. */
  lemma BlanksFromIs(s: Bytes, i: nat, m: nat)
    requires i <= m <= |s|
    requires forall k :: i <= k < m ==> Blank(s[k])
    requires m < |s| ==> !Blank(s[m])
    ensures BlanksFrom(s, i) == m
  {
  }

  lemma BlanksBeforeIs(s: Bytes, lo: nat, j: nat, m: nat)
    requires lo <= m <= j <= |s|
    requires forall k :: m <= k < j ==> Blank(s[k])
    requires m > lo ==> !Blank(s[m - 1])
    ensures BlanksBefore(s, lo, j) == m
  {
  }

  /** The converse of TrimShape: a piece with nothing to strip, padded with blanks, trims back to itself. */
  lemma TrimUnique(p: Bytes, t: Bytes, q: Bytes)
    requires AllBlank(p) && AllBlank(q) && Trimmed(t)
    ensures Trim(p + t + q) == t
  {
    var s := p + t + q;
    var a, b := |p|, |p| + |t|;
    assert forall k :: 0 <= k < a ==> s[k] == p[k];
    assert forall k :: b <= k < |s| ==> s[k] == q[k - b];
    assert forall k :: a <= k < b ==> s[k] == t[k - a];
    if |t| == 0 {
      BlanksFromIs(s, 0, |s|);
      assert s[|s|..|s|] == t;
    } else {
      BlanksFromIs(s, 0, a);
      BlanksBeforeIs(s, a, |s|, b);
      assert s[a..b] == t;
    }
  }

  /** `trim` is idempotent. */
  lemma TrimTwice(s: Bytes)
    ensures Trim(Trim(s)) == Trim(s)
  {
    TrimShape(s);
    var t := Trim(s);
    assert [] + t + [] == t;
    TrimUnique([], t, []);
  }

  lemma AllBlankJoin(a: Bytes, b: Bytes)
    requires AllBlank(a) && AllBlank(b)
    ensures AllBlank(a + b)
  {
    forall k | 0 <= k < |a + b| ensures Blank((a + b)[k]) {
      if k < |a| { assert (a + b)[k] == a[k]; } else { assert (a + b)[k] == b[k - |a|]; }
    }
  }

  lemma Regroup(p: Bytes, front: Bytes, t: Bytes, back: Bytes, q: Bytes)
    ensures p + (front + t + back) + q == (p + front) + t + (back + q)
  {
  }

  /** Blank padding on either side does not change what `trim` returns. */
  lemma TrimIgnoresPadding(p: Bytes, s: Bytes, q: Bytes)
    requires AllBlank(p) && AllBlank(q)
    ensures Trim(p + s + q) == Trim(s)
  {
    TrimShape(s);
    var t := Trim(s);
    var front, back := s[..Lead(s)], s[Last(s)..];
    assert s == front + t + back;
    Regroup(p, front, t, back, q);
    AllBlankJoin(p, front);
    AllBlankJoin(back, q);
    TrimUnique(p + front, t, back + q);
  }

  // ---------------------------------------------------------------------
  // addslashes, stripslashes and single-quoted literals
  // ---------------------------------------------------------------------

  /** What `addslashes` makes of one byte: a backslash before `'`, `"` and `\`, and NUL as `\0`. */
  function Slashed(c: Octet): (r: Bytes)
  {
    if c == 0 as char then ['\\', '0']
    else if c == '\'' || c == '"' || c == '\\' then ['\\', c]
    else [c]
  }

  /** PHP `addslashes`. */
  function AddSlashes(s: Bytes): (r: Bytes)
    ensures |s| <= |r| <= 2 * |s|
  {
    if |s| == 0 then [] else Slashed(s[0]) + AddSlashes(s[1..])
  }

  /** PHP `stripslashes`: a backslash escapes the next byte, `\0` is NUL, a trailing lone backslash is dropped. */
  function StripSlashes(s: Bytes): Bytes
    decreases |s|
  {
    if |s| == 0 then []
    else if s[0] == '\\' then
      if |s| == 1 then []
      else (if s[1] == '0' then [0 as char] else [s[1]]) + StripSlashes(s[2..])
    else [s[0]] + StripSlashes(s[1..])
  }

  /** `stripslashes` undoes `addslashes`. */
  lemma {:induction false} StripAddSlashes(s: Bytes)
    ensures StripSlashes(AddSlashes(s)) == s
    decreases |s|
  {
    if |s| > 0 {
      var c, rest := s[0], AddSlashes(s[1..]);
      var e := Slashed(c) + rest;
      if |Slashed(c)| == 2 {
        assert e[2..] == rest;
      } else {
        assert e[1..] == rest;
      }
      StripAddSlashes(s[1..]);
      assert s == [c] + s[1..];
    }
  }

  /**
   * The value PHP gives a single-quoted literal with this body: only `\\`
   * and `\'` are escapes, every other backslash stands for itself.
   */
  function SingleQuoted(body: Bytes): Bytes
    decreases |body|
  {
    if |body| == 0 then []
    else if body[0] == '\\' && |body| > 1 && (body[1] == '\\' || body[1] == '\'') then
      [body[1]] + SingleQuoted(body[2..])
    else [body[0]] + SingleQuoted(body[1..])
  }

  /** The bytes `addslashes` escapes that a single-quoted literal does not unescape. */
  predicate Misread(c: Octet)
  {
    c == '"' || c == 0 as char
  }

  /** What a single-quoted literal yields for one byte escaped by `addslashes`. */
  function ReadOne(c: Octet): (r: Bytes)
  {
    if c == '"' then ['\\', '"'] else if c == 0 as char then ['\\', '0'] else [c]
  }

  /** What a single-quoted literal yields for a value escaped by `addslashes`: `"` reads as `\"`, NUL as `\0`. */
  function ReadBack(s: Bytes): (r: Bytes)
    ensures |r| >= |s|
    ensures |r| == |s| <==> forall k :: 0 <= k < |s| ==> !Misread(s[k])
    ensures |r| == |s| ==> r == s
    decreases |s|
  {
    if |s| == 0 then []
    else
      var rest := ReadBack(s[1..]);
      assert forall k :: 1 <= k < |s| ==> s[k] == s[1..][k - 1];
      assert !Misread(s[0]) && |rest| == |s| - 1 ==> ReadOne(s[0]) + rest == [s[0]] + s[1..] == s;
      ReadOne(s[0]) + rest
  }

  lemma SingleQuotedStep(c: Octet, rest: Bytes)
    ensures SingleQuoted(Slashed(c) + rest) == ReadOne(c) + SingleQuoted(rest)
  {
    var e := Slashed(c) + rest;
    if c == '\'' || c == '\\' {
      assert e[2..] == rest;
    } else if Misread(c) {
      assert e[1..] == [e[1]] + rest;
      assert e[1..][1..] == rest;
    } else {
      assert e[1..] == rest;
    }
  }

  lemma {:induction false} AddSlashesReadBack(s: Bytes)
    ensures SingleQuoted(AddSlashes(s)) == ReadBack(s)
    decreases |s|
  {
    if |s| > 0 {
      AddSlashesReadBack(s[1..]);
      SingleQuotedStep(s[0], AddSlashes(s[1..]));
    }
  }

  /**
   * A value escaped with `addslashes` and placed in a single-quoted literal
   * reads back as itself exactly when it holds no `"` and no NUL.
   */
  lemma AddSlashesQuotedBack(s: Bytes)
    ensures SingleQuoted(AddSlashes(s)) == s <==> forall k :: 0 <= k < |s| ==> !Misread(s[k])
  {
    AddSlashesReadBack(s);
  }

  /** The escaping a single-quoted literal needs: a backslash before `\` and `'` only. */
  function QuoteSingle(s: Bytes): (r: Bytes)
    ensures |s| <= |r| <= 2 * |s|
  {
    if |s| == 0 then []
    else (if s[0] == '\\' || s[0] == '\'' then ['\\', s[0]] else [s[0]]) + QuoteSingle(s[1..])
  }

  /** Every value survives QuoteSingle inside a single-quoted literal. */
  lemma {:induction false} SingleQuotedRoundTrip(s: Bytes)
    ensures SingleQuoted(QuoteSingle(s)) == s
    decreases |s|
  {
    if |s| > 0 {
      var rest := QuoteSingle(s[1..]);
      var e := QuoteSingle(s);
      SingleQuotedRoundTrip(s[1..]);
      if s[0] == '\\' || s[0] == '\'' {
        assert e == ['\\', s[0]] + rest;
        assert e[2..] == rest;
      } else {
        assert e == [s[0]] + rest;
        assert e[1..] == rest;
      }
      assert s == [s[0]] + s[1..];
    }
  }

  // ---------------------------------------------------------------------
  // The config line pattern
  // ---------------------------------------------------------------------

  /** PCRE `\s`: space, tab, LF, vertical tab, form feed, CR. */
  predicate RegexSpace(c: Octet)
  {
    c == ' ' || c == '\t' || c == '\n' || c == 11 as char || c == 12 as char || c == '\r'
  }

  predicate Quote(c: Octet)
  {
    c == '\'' || c == '"'
  }

  /** Where a run of `\s` starting at `i` ends. */
  function SkipSpaces(line: Bytes, i: nat): (j: nat)
    requires i <= |line|
    ensures i <= j <= |line|
    ensures forall k :: i <= k < j ==> RegexSpace(line[k])
    ensures j < |line| ==> !RegexSpace(line[j])
    decreases |line| - i
  {
    if i < |line| && RegexSpace(line[i]) then SkipSpaces(line, i + 1) else i
  }

  const DEFINE: Bytes := "define"

  /**
   * The pattern `define\s*\(\s*['"]KEY['"]` matches at `i`.  Taking the
   * longest run of `\s` loses no match, since neither `(` nor a quote is a
   * space.
   */
  predicate DefineAt(line: Bytes, key: Bytes, i: nat)
    requires i <= |line|
  {
    && i + |DEFINE| <= |line| && line[i..i + |DEFINE|] == DEFINE
    && var paren := SkipSpaces(line, i + |DEFINE|);
    && paren < |line| && line[paren] == '('
    && var q := SkipSpaces(line, paren + 1);
    && q + 1 + |key| < |line| && Quote(line[q])
    && line[q + 1..q + 1 + |key|] == key && Quote(line[q + 1 + |key|])
  }

  /** `preg_match` of the pattern anywhere in the line. */
  predicate DefinesKey(line: Bytes, key: Bytes)
  {
    exists i :: 0 <= i <= |line| && DefineAt(line, key, i)
  }

  /** The line `updateConfigValue` writes for a key. */
  function DefineLine(key: Bytes, value: Bytes): Bytes
  {
    "define('" + key + "', '" + AddSlashes(value) + "');\n"
  }

  /** The written line matches the pattern for its own key. */
  lemma DefineLineMatches(key: Bytes, value: Bytes)
    ensures DefinesKey(DefineLine(key, value), key)
  {
    var line := DefineLine(key, value);
    var k := |DEFINE|;
    assert line[..k] == DEFINE;
    assert line[k] == '(';
    assert SkipSpaces(line, k) == k;
    assert line[k + 1] == '\'';
    assert SkipSpaces(line, k + 1) == k + 1;
    assert line[k + 2..k + 2 + |key|] == key;
    assert line[k + 2 + |key|] == '\'';
    assert DefineAt(line, key, 0);
  }

  // ---------------------------------------------------------------------
  // updateConfigValue
  // ---------------------------------------------------------------------

  /** Index of the first line the pattern matches, if any. */
  function FirstDefine(lines: seq<Bytes>, key: Bytes): (r: Option<nat>)
    ensures r.Some? ==> r.value < |lines| && DefinesKey(lines[r.value], key)
    ensures r.Some? ==> forall j :: 0 <= j < r.value ==> !DefinesKey(lines[j], key)
    ensures r.None? <==> forall j :: 0 <= j < |lines| ==> !DefinesKey(lines[j], key)
  {
    if |lines| == 0 then None
    else if DefinesKey(lines[0], key) then Some(0)
    else
      match FirstDefine(lines[1..], key)
      case None => None
      case Some(i) => Some(i + 1)
  }

  /** The lines after the loop: the first matching line replaced, all others as they were. */
  function Rewritten(lines: seq<Bytes>, key: Bytes, value: Bytes): (r: seq<Bytes>)
    ensures |r| == |lines|
    ensures forall j :: 0 <= j < |lines| && FirstDefine(lines, key) != Some(j) ==> r[j] == lines[j]
    ensures FirstDefine(lines, key).Some? ==> r[FirstDefine(lines, key).value] == DefineLine(key, value)
  {
    match FirstDefine(lines, key)
    case None => lines
    case Some(i) => lines[i := DefineLine(key, value)]
  }

  /** Rewriting again finds the same line and leaves the file as it is. */
  lemma RewriteTwice(lines: seq<Bytes>, key: Bytes, value: Bytes)
    ensures FirstDefine(Rewritten(lines, key, value), key) == FirstDefine(lines, key)
    ensures Rewritten(Rewritten(lines, key, value), key, value) == Rewritten(lines, key, value)
  {
    var once := Rewritten(lines, key, value);
    match FirstDefine(lines, key)
    case None =>
    case Some(i) =>
      DefineLineMatches(key, value);
      assert DefinesKey(once[i], key);
  }

  /** The loop of `updateConfigValue` over the lines read from the file. */
  method ReplaceDefine(lines: array<Bytes>, key: Bytes, value: Bytes) returns (updated: bool)
    modifies lines
    ensures updated == FirstDefine(old(lines[..]), key).Some?
    ensures lines[..] == Rewritten(old(lines[..]), key, value)
  {
    updated := false;
    var i := 0;
    while i < lines.Length
      invariant i <= lines.Length
      invariant lines[..] == old(lines[..])
      invariant forall j :: 0 <= j < i ==> !DefinesKey(lines[j], key)
    {
      if DefinesKey(lines[i], key) {
        assert FirstDefine(lines[..], key) == Some(i);
        lines[i] := DefineLine(key, value);
        updated := true;
        return;
      }
      i := i + 1;
    }
  }

  /** The config file as `updateConfigValue` finds it. */
  datatype ConfigFile = ConfigFile(present: bool, writable: bool, lines: seq<Bytes>)

  /**
   * What `updateConfigValue` reports and the lines the file holds afterwards,
   * given whether the backup copy and the final write succeed.
   */
  function ConfigUpdate(file: ConfigFile, copied: bool, written: bool, key: Bytes, value: Bytes): (r: (bool, seq<Bytes>))
    ensures r.0 <==> file.present && file.writable && copied && written
                     && exists j :: 0 <= j < |file.lines| && DefinesKey(file.lines[j], key)
    ensures r.1 == if r.0 then Rewritten(file.lines, key, value) else file.lines
  {
    if !file.present || !file.writable || !copied then (false, file.lines)
    else if FirstDefine(file.lines, key).None? then (false, file.lines)
    else (written, if written then Rewritten(file.lines, key, value) else file.lines)
  }

  method UpdateConfigValue(file: ConfigFile, copied: bool, written: bool, key: Bytes, value: Bytes)
    returns (ok: bool, lines: seq<Bytes>)
    ensures (ok, lines) == ConfigUpdate(file, copied, written, key, value)
  {
    if !file.present || !file.writable {
      return false, file.lines;
    }
    if !copied {
      return false, file.lines;
    }
    var buffer := new Bytes[|file.lines|](i requires 0 <= i < |file.lines| => file.lines[i]);
    assert buffer[..] == file.lines;
    var updated := ReplaceDefine(buffer, key, value);
    if !updated || !written {
      return false, file.lines;
    }
    return true, buffer[..];
  }

  // ---------------------------------------------------------------------
  // changeAdminPassword
  // ---------------------------------------------------------------------

  const ADMIN_KEY: Bytes := "ADMIN_PASSWORD"
  const MIN_LENGTH: nat := 6

  // The messages are plain text shown to the administrator.
  const NOT_DEFINED: string := "Admin password is not defined"
  const WRONG_CURRENT: string := "Current password is incorrect"
  const TOO_SHORT: string := "New password must be at least 6 characters"
  const MISMATCH: string := "New passwords do not match"
  const UNCHANGED: string := "New password must be different from current password"
  const WRITE_FAILED: string := "Failed to update config file"
  const CHANGED: string := "Password changed successfully. Please log in again with your new password."

  /** The reply of `changeAdminPassword` and the config lines it leaves. */
  datatype Change = Change(success: bool, message: string, lines: seq<Bytes>)

  /**
   * The checks of `changeAdminPassword` on the already trimmed stored,
   * current, new and confirmation passwords, in order; the first that fails
   * names the message, and only when all pass is the config rewritten.
   */
  function Checked(saved: Bytes, given: Bytes, wanted: Bytes, again: Bytes,
                   file: ConfigFile, copied: bool, written: bool): (r: Change)
    ensures r.message == WRONG_CURRENT <==> given != saved
    ensures r.message == TOO_SHORT <==> given == saved && |wanted| < MIN_LENGTH
    ensures r.message == MISMATCH <==> given == saved && |wanted| >= MIN_LENGTH && wanted != again
    ensures r.message == UNCHANGED
            <==> given == saved && |wanted| >= MIN_LENGTH && wanted == again && wanted == given
    ensures r.message == WRITE_FAILED
            <==> && given == saved && |wanted| >= MIN_LENGTH && wanted == again && wanted != given
                 && !ConfigUpdate(file, copied, written, ADMIN_KEY, wanted).0
    ensures r.message != NOT_DEFINED
    ensures r.success <==> r.message == CHANGED
    ensures r.success <==> && given == saved && |wanted| >= MIN_LENGTH && wanted == again && wanted != given
                           && ConfigUpdate(file, copied, written, ADMIN_KEY, wanted).0
    ensures r.lines == if r.success then Rewritten(file.lines, ADMIN_KEY, wanted) else file.lines
  {
    if given != saved then Change(false, WRONG_CURRENT, file.lines)
    else if |wanted| < MIN_LENGTH then Change(false, TOO_SHORT, file.lines)
    else if wanted != again then Change(false, MISMATCH, file.lines)
    else if wanted == given then Change(false, UNCHANGED, file.lines)
    else
      var (updated, lines) := ConfigUpdate(file, copied, written, ADMIN_KEY, wanted);
      if !updated then Change(false, WRITE_FAILED, lines)
      else Change(true, CHANGED, lines)
  }

  /**
   * `changeAdminPassword`; `stored` is `ADMIN_PASSWORD`, absent when the
   * constant is not defined, in which case nothing else is looked at.
   */
  function ChangeAdminPassword(stored: Option<Bytes>, current: Bytes, proposed: Bytes, confirmation: Bytes,
                               file: ConfigFile, copied: bool, written: bool): (r: Change)
    ensures r.message == NOT_DEFINED <==> stored.None?
    ensures r.message == WRONG_CURRENT <==> stored.Some? && Trim(current) != Trim(stored.value)
    ensures r.message == TOO_SHORT
            <==> stored.Some? && Trim(current) == Trim(stored.value) && |Trim(proposed)| < MIN_LENGTH
    ensures r.message == MISMATCH
            <==> && stored.Some? && Trim(current) == Trim(stored.value) && |Trim(proposed)| >= MIN_LENGTH
                 && Trim(proposed) != Trim(confirmation)
    ensures r.message == UNCHANGED
            <==> && stored.Some? && Trim(current) == Trim(stored.value) && |Trim(proposed)| >= MIN_LENGTH
                 && Trim(proposed) == Trim(confirmation) && Trim(proposed) == Trim(current)
    ensures r.message == WRITE_FAILED
            <==> && stored.Some? && Trim(current) == Trim(stored.value) && |Trim(proposed)| >= MIN_LENGTH
                 && Trim(proposed) == Trim(confirmation) && Trim(proposed) != Trim(current)
                 && !ConfigUpdate(file, copied, written, ADMIN_KEY, Trim(proposed)).0
    ensures r.success <==> r.message == CHANGED
    ensures r.success
            <==> && stored.Some? && Trim(current) == Trim(stored.value) && |Trim(proposed)| >= MIN_LENGTH
                 && Trim(proposed) == Trim(confirmation) && Trim(proposed) != Trim(current)
                 && ConfigUpdate(file, copied, written, ADMIN_KEY, Trim(proposed)).0
    ensures r.lines == if r.success then Rewritten(file.lines, ADMIN_KEY, Trim(proposed)) else file.lines
  {
    match stored
    case None => Change(false, NOT_DEFINED, file.lines)
    case Some(password) => Checked(Trim(password), Trim(current), Trim(proposed), Trim(confirmation), file, copied, written)
  }

  /**
   * Blanks around any of the three inputs or the stored password make no
   * difference; each string is trimmed on its own, so each has its own padding.
   */
  lemma ChangeIgnoresPadding(stored: Bytes, current: Bytes, proposed: Bytes, confirmation: Bytes,
                             p1: Bytes, q1: Bytes, p2: Bytes, q2: Bytes,
                             p3: Bytes, q3: Bytes, p4: Bytes, q4: Bytes,
                             file: ConfigFile, copied: bool, written: bool)
    requires AllBlank(p1) && AllBlank(q1) && AllBlank(p2) && AllBlank(q2)
    requires AllBlank(p3) && AllBlank(q3) && AllBlank(p4) && AllBlank(q4)
    ensures ChangeAdminPassword(Some(p1 + stored + q1), p2 + current + q2, p3 + proposed + q3,
                                p4 + confirmation + q4, file, copied, written)
            == ChangeAdminPassword(Some(stored), current, proposed, confirmation, file, copied, written)
  {
    TrimIgnoresPadding(p1, stored, q1);
    TrimIgnoresPadding(p2, current, q2);
    TrimIgnoresPadding(p3, proposed, q3);
    TrimIgnoresPadding(p4, confirmation, q4);
  }

  /**
   * After a successful change the config holds, at the line that defined the
   * password, a literal that reads back as the new password exactly when the
   * trimmed password has no `"` and no NUL.
   */
  lemma ChangeStoresPassword(stored: Bytes, current: Bytes, proposed: Bytes, confirmation: Bytes,
                             file: ConfigFile, copied: bool, written: bool)
    requires ChangeAdminPassword(Some(stored), current, proposed, confirmation, file, copied, written).success
    ensures FirstDefine(file.lines, ADMIN_KEY).Some?
    ensures ChangeAdminPassword(Some(stored), current, proposed, confirmation, file, copied, written)
              .lines[FirstDefine(file.lines, ADMIN_KEY).value]
            == "define('" + ADMIN_KEY + "', '" + AddSlashes(Trim(proposed)) + "');\n"
    ensures SingleQuoted(AddSlashes(Trim(proposed))) == Trim(proposed)
            <==> forall k :: 0 <= k < |Trim(proposed)| ==> !Misread(Trim(proposed)[k])
  {
    AddSlashesQuotedBack(Trim(proposed));
  }

  /** A concrete case: the new password `secret"1` does not read back as itself. */
  lemma QuoteStoredWithSlash()
    ensures SingleQuoted(AddSlashes("secret\"1")) != "secret\"1"
  {
    var s: Bytes := "secret\"1";
    assert Misread(s[6]);
    AddSlashesQuotedBack(s);
  }

}
