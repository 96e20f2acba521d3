# RouterOS API client and admin password change, modelled in Dafny

This project models two parts of a hotspot billing system.

The first is `MikrotikAPI`, the PHP client through which the system talks to a MikroTik router over the RouterOS API. The model covers:

- the 1–5 byte self-describing length prefix (`encodeLength` / `decodeLength`);
- the word and sentence framing that `write` puts on the socket;
- the `read` loop, which splits the incoming words into sentences at `!`-prefixed marker words;
- `parseResponse`, which turns `=key=value` words into one map per sentence;
- the `connected` flag with `connect` / `disconnect`, including the two-step `/login`;
- the wrappers, each of which sends a path and parameter words and then reads. Among them is the row filter of `getHotspotProfiles`.

The second is the dashboard's administrator password change (`admin/password_change_handler.php`). The model covers:

- PHP `trim` and `addslashes`;
- the ordered validation chain of `changeAdminPassword`;
- the line-replacement loop of `updateConfigValue`, which replaces the first `define('KEY'` line of the config file.

Files and modules:

- `wire.dfy` — module `Wire`. PHP byte strings are `seq<Octet>`, where `Octet` is a `char` below 256. Also `chr`/`ord`, the byte-wide `&`, `|` and `~`, the length codec, and word/sentence encoding.
- `reply.dfy` — module `Reply`. It has:
  - what `read` takes from a byte stream: `ReadWords` for the words, then `Sentences` for the grouping;
  - `parseResponse`;
  - the two `!trap` checks;
  - the profile filter;
  - the user-id and identity lookups.
- `session.dfy` — module `Mikrotik`. Class `MikrotikAPI` has:
  - the connection flag `connected`;
  - the socket: the router's bytes `input` read through `cursor`, and the client's bytes `output`;
  - imperative `Write`, `Read`, `ReadLength` (decodeLength), `Connect` and `Disconnect`;
  - the wrappers.

  Each method is proved against specification functions: `Received`, `Exchanged`, `Login` and `UserAction`.
- `admin.dfy` — module `AdminPassword`. It has:
  - `Trim`, `AddSlashes` and the config line pattern;
  - the in-place loop `ReplaceDefine` over an `array` of lines, proved against `Rewritten`;
  - `UpdateConfigValue`, proved against `ConfigUpdate`;
  - `ChangeAdminPassword`.

The socket is not modelled:

- The router's answer is a byte sequence given to `Connect`, and writes append to `output`.
- `fsockopen` succeeding is the parameter `reachable`.
- Reads past the end of the stream give what PHP's `fread` gives there: no bytes, and `ord('')` is 0.

The file system is not modelled either. The config file is its list of lines. Whether the file exists, whether it is writable, and whether the backup copy and the final write succeed are all parameters.

## Behaviour of the code worth knowing

The model follows the code, including five behaviours a caller might not expect:

- `read` ends the whole reply at the first zero-length word, so a multi-row reply yields only its first sentence. The rest stays in the stream, and the next `read` returns it (`ReadStopsAfterFirstSentence`, `LookupLeavesDone`).
- The action wrappers test `isset($response[0]['!trap'])` on the unparsed reply. That reply is a list of words, whose keys are integers, so the key `!trap` never finds anything in it. So these wrappers report success whatever the router answers, and also when not connected, except the three user wrappers below (`RawNeverTrapped`).
- In `connect`, the parsed check fires only for a word `=!trap=...` (`LoginStopsOnTrapKey`). A router that refuses the password answers `!trap =message=...`, which parses to a row keyed `message`. So `connect` reports success (`LoginIgnoresRefusal`).
- After a login failure the client stays `connected`.
- Commands sent without a connection write nothing and read `[]`, rather than raising a state error. Most wrappers then return `[]`, and the action wrappers return `true`. There are exceptions:
  - `removeHotspotUser`, `updateUserProfile` and `updateUserPassword` return `false`, because their lookup finds no user.
  - `getSystemIdentity` returns `'Uptime'`.
  - `getHotspotProfiles` connects first.

## Model

| member | source | states |
|---|---|---|
| `Wire.Chr` | MikrotikAPI.php:108-116 | `chr` keeps the value modulo 256, for every byte the encoder emits (PHP's definition of `chr`) |
| `Wire.ChrOrd` | MikrotikAPI.php:108-116 | `chr` and `ord` are inverse on bytes, so the bytes the encoder emits are the ones the decoder's `ord` reads back |
| `Wire.EncodeLength` | MikrotikAPI.php:106-117 | the prefix is 1 to 5 bytes long |
| `Wire.EncodeLengthWidth` | MikrotikAPI.php:106-117 | width 1, 2, 3, 4 or 5 exactly when the length is below 0x80, 0x4000, 0x200000, 0x10000000 or beyond, both directions |
| `Wire.LeadingByteClass` | MikrotikAPI.php:106-132 | for every length below 2^32 the leading byte lies in the class the decoder's branch tests: below 0x80, `10xxxxxx`, `110xxxxx`, `1110xxxx`, or exactly 0xF0 |
| `Wire.LeadByteMasks` | MikrotikAPI.php:121-131 | the mask tests `& 0xC0 == 0x80`, `& 0xE0 == 0xC0`, `& 0xF0 == 0xE0`, `& 0xF8 == 0xF0` pick the byte ranges in turn, and `& ~mask` keeps the bits below the tag |
| `Wire.DecodeLength` | MikrotikAPI.php:119-132 | decoding reads at most 5 bytes, moves forward whenever it returns a non-zero length, and never exceeds 2^32 - 1 |
| `Wire.DecodeEncodeLength` | MikrotikAPI.php:106-132 | for every length below 2^32, with any bytes before and after, decoding the encoding gives the length back and consumes exactly the encoded bytes |
| `Wire.DecodeEncodedAt` | MikrotikAPI.php:119-132 | wherever an encoded length sits in a stream, decoding there returns it and stops right after it |
| `Wire.InvalidLeadIsTerminator` | MikrotikAPI.php:128-131 | a leading byte 0xF8–0xFF decodes to length 0 after one byte, like the end-of-sentence word |
| `Wire.LengthExample130` | MikrotikAPI.php:109-110 | 130 encodes to `80 82` and decodes back to 130 after two bytes |
| `Wire.EncodeSentence` | MikrotikAPI.php:67-76 | a written sentence always ends with the zero byte |
| `Wire.EncodeSentenceCons` | MikrotikAPI.php:71-75 | a sentence is its first word's prefix and bytes, followed by the rest of the sentence |
| `Wire.EncodeWordsSnoc` | MikrotikAPI.php:72-74 | each pass of the parameter loop appends exactly one prefixed word |
| `Reply.ReadWords` | MikrotikAPI.php:83-91 | the reader never moves back, never passes the end, and on a non-empty remainder always consumes something |
| `Reply.ReadSentenceAt` | MikrotikAPI.php:83-90 | a sentence the client could have written, read from its start, gives back exactly its words and stops right after its zero byte |
| `Reply.ReadEncodedSentence` | MikrotikAPI.php:83-90 | the same, whatever bytes come before and after it |
| `Reply.ReadFirstSentence` | MikrotikAPI.php:83-90 | the same, for a sentence at the start of the stream |
| `Reply.ReadStopsAfterFirstSentence` | MikrotikAPI.php:83-90 | with two sentences queued, one `read` returns the first alone and leaves the cursor at the second, which the next `read` returns |
| `Reply.Sentences` | MikrotikAPI.php:92-99 | the grouping of the words of one `read` into sentences at each `!` word: no sentence is empty, and there are none exactly when there are no words; `SentencesFlatten`, `SentencesWellSplit` and `GatherInvariant` state what it keeps |
| `Reply.GatherInvariant` | MikrotikAPI.php:92-99 | after any words, the loop's `$response` and `$current` hold those words, in order, split at markers |
| `Reply.SentencesFlatten` | MikrotikAPI.php:83-100 | grouping into sentences loses, duplicates and reorders no word |
| `Reply.SentencesWellSplit` | MikrotikAPI.php:86-96 | every sentence is non-empty, only its first word may be a `!` marker, each later sentence starts with one, and there are no sentences exactly when there are no words |
| `Reply.SentencesOfOne` | MikrotikAPI.php:92-99 | words with no marker after the first form a single sentence |
| `Reply.AttrOf` | MikrotikAPI.php:139-141 | the pair a word `=key=value` yields, split at the second `=`: the key has no `=` and the word is two bytes longer than key and value together; `AttrOfPair` and `AttrOfNothing` characterise it both ways |
| `Reply.IndexOf` | MikrotikAPI.php:140 | the position found holds the first `=` of the word, and none is reported only when there is none |
| `Reply.AttrOfSplits` | MikrotikAPI.php:139-141 | a word that yields a pair is `=`, then the key, then `=`, then the value, with no `=` in the key |
| `Reply.AttrOfJoins` | MikrotikAPI.php:139-141 | such a word yields exactly that key and value, whatever `=` signs the value holds |
| `Reply.AttrOfPair` | MikrotikAPI.php:139-141 | both directions together: a word yields `(k, v)` if and only if it is `=k=v` with no `=` in `k` |
| `Reply.AttrOfNothing` | MikrotikAPI.php:139-141 | a word is dropped exactly when it is empty, does not start with `=`, or has no second `=` (such as `=stats`) |
| `Reply.Entry` | MikrotikAPI.php:137-143 | the map of one sentence's pairs, later words overwriting earlier ones: every key comes from some word of the sentence; `EntryKeys` gives the converse and `EntryLastWins` the values |
| `Reply.EntryKeys` | MikrotikAPI.php:137-143 | a sentence's map has key `k` exactly when some word of the sentence yields a pair with key `k` |
| `Reply.EntryLastWins` | MikrotikAPI.php:141 | the value under a key is the one from the last word carrying that key |
| `Reply.ParseResponse` | MikrotikAPI.php:134-147 | `parseResponse`: one row per sentence with a pair, sentences without one dropped: no more rows than sentences, and no row empty; `ParseResponseRows`, `ParseResponseSingle` and `ParseResponseAppend` state the rest |
| `Reply.ParseResponseAppend` | MikrotikAPI.php:134-147 | parsing two lists of sentences gives the rows of each, in order |
| `Reply.ParseResponseRows` | MikrotikAPI.php:134-147 | there are never more rows than sentences, and every row is the non-empty map of some sentence |
| `Reply.ParseResponseSingle` | MikrotikAPI.php:136-145 | one sentence gives one row exactly when it has a `=key=value` word, and otherwise none |
| `Reply.TrapReplyUnseen` | MikrotikAPI.php:44-50 | the refusal `!trap =message=...` parses to a row without the key `!trap`, so the parsed check does not fire on it |
| `Reply.TrapKeySeen` | MikrotikAPI.php:36-41 | the parsed check fires on a reply whose word is `=!trap=...` |
| `Reply.ParsedTrapIff` | MikrotikAPI.php:36-50 | for every reply, the parsed check fires exactly when the first sentence with any `=key=value` word has a word with the key `!trap`, all earlier sentences having none |
| `Reply.ParsedTrapNeedsKeyWord` | MikrotikAPI.php:36-50 | the parsed check fires only if some word of the reply is `=!trap=...` |
| `Reply.RawNeverTrapped` | MikrotikAPI.php:224-228 | `isset($response[0]['!trap'])` on an unparsed reply is false for every reply |
| `Reply.ListIssetIndex` | MikrotikAPI.php:227 | by contrast, a decimal string key does find the word at that position of the list |
| `Reply.ProfileRows` | MikrotikAPI.php:268-276 | the `getHotspotProfiles` filter: at most one profile per row; `ProfileRowsMembers` says exactly which rows, with which id and name, in order |
| `Reply.ProfileRowsAppend` | MikrotikAPI.php:268-276 | the profile filter works row by row, keeping order |
| `Reply.ProfileRowsMembers` | MikrotikAPI.php:268-276 | a profile is listed exactly when some row has both `.id` and `name` with its id and name |
| `Reply.FirstUserId` | MikrotikAPI.php:184-190 | an id is found exactly when there is a first row with a `.id` that PHP counts as true, and it is that value |
| `Mikrotik.Received` | MikrotikAPI.php:78-101 | one `read` moves the cursor forward and never past the end of the stream |
| `Mikrotik.Login` | MikrotikAPI.php:33-53 | the login exchange of `connect`: it sends `/login` alone or followed by `/login` with `=name=` and `=password=`, and never reads past the stream; `LoginStopsOnTrapKey` and `LoginIgnoresRefusal` show which happens when |
| `Mikrotik.LoginStopsOnTrapKey` | MikrotikAPI.php:36-41 | a first reply `=!trap=...` ends the login after one `/login`, with false |
| `Mikrotik.LoginIgnoresRefusal` | MikrotikAPI.php:44-50 | `!done`, then the router's refusal `!trap =message=...`: both logins are sent, and the result is true |
| `Mikrotik.UserAction` | MikrotikAPI.php:184-195 | the lookup-then-act flow of the user wrappers: the cursor only moves forward within the stream, and without a connection the result is false with nothing sent; `LookupLeavesDone` and `ActOnUser` show the connected case |
| `Mikrotik.LookupLeavesDone` | MikrotikAPI.php:184-195 | for a lookup answered `!re =.id=...` then `!done`: the lookup's `read` returns only the row, the id is found, and the `read` after the removal consumes the lookup's `!done` |
| `Mikrotik.MikrotikAPI.constructor` | MikrotikAPI.php:15-20 | host, user, password and port (8728 by default) are kept, and the client starts disconnected with empty streams |
| `Mikrotik.MikrotikAPI.ReadBytes` | MikrotikAPI.php:91 | `fread` of `k` bytes returns the next `k` bytes, or fewer at the end of the stream, and advances past them |
| `Mikrotik.MikrotikAPI.ReadOrd` | MikrotikAPI.php:120 | `ord(fread(1))` returns the next byte, or 0 at the end of the stream |
| `Mikrotik.MikrotikAPI.ReadTail` | MikrotikAPI.php:122-130 | `k` one-byte reads shifted and added give the big-endian value of the next `k` bytes |
| `Mikrotik.MikrotikAPI.ReadLength` | MikrotikAPI.php:119-132 | decodeLength's mask tests and byte reads return exactly `DecodeLength`'s length and leave the cursor where it says |
| `Mikrotik.MikrotikAPI.Write` | MikrotikAPI.php:67-76 | without a connection nothing is written. Otherwise the output grows by exactly: the prefixed command, each parameter from the 2nd argument if it is a list and else from the 3rd, then one zero byte |
| `Mikrotik.MikrotikAPI.Read` | MikrotikAPI.php:78-104 | without a connection it returns `[]` and reads nothing. Otherwise it consumes the words up to the first zero length and no further, and returns the sentences, or their parsed rows |
| `Mikrotik.MikrotikAPI.Connect` | MikrotikAPI.php:26-54 | a socket that does not open changes nothing and gives false. Otherwise the client is connected from then on, even after a login failure, and the result, bytes written and cursor are those of `Login` |
| `Mikrotik.MikrotikAPI.Disconnect` | MikrotikAPI.php:56-61 | afterwards the client is not connected, so calling it again changes nothing |
| `Mikrotik.MikrotikAPI.Query` | MikrotikAPI.php:214-217 | a `get*` wrapper writes the path and words, then returns the parsed rows of one `read` |
| `Mikrotik.MikrotikAPI.Command` | MikrotikAPI.php:365-370 | an action wrapper writes the path and words, reads once unparsed, and reports true whatever was read |
| `Mikrotik.MikrotikAPI.HotspotLogin` | MikrotikAPI.php:197-212 | sends `/ip/hotspot/active/login` with user, password, ip and mac, and reports true |
| `Mikrotik.MikrotikAPI.DisconnectUser` | MikrotikAPI.php:224-228 | sends `/ip/hotspot/active/remove` with the id, and reports true |
| `Mikrotik.MikrotikAPI.AddHotspotUser` | MikrotikAPI.php:153-182 | sends the add with a comment only for a non-empty MAC, then logs the user in exactly when both IP and MAC are non-empty, and reports true |
| `Mikrotik.MikrotikAPI.ActOnUser` | MikrotikAPI.php:184-195 | looks the user up by name and acts on the id found, as `UserAction` says |
| `Mikrotik.MikrotikAPI.RemoveHotspotUser` | MikrotikAPI.php:184-195 | the lookup, then `/ip/hotspot/user/remove` with the id |
| `Mikrotik.MikrotikAPI.UpdateUserProfile` | MikrotikAPI.php:468-487 | the lookup, then `/ip/hotspot/user/set` with the id and the new profile |
| `Mikrotik.MikrotikAPI.UpdateUserPassword` | MikrotikAPI.php:489-508 | the lookup, then `/ip/hotspot/user/set` with the id and the new password |
| `Mikrotik.MikrotikAPI.AddBandwidthLimit` | MikrotikAPI.php:347-360 | sends the queue named `limit-<target>` unless a name is given, with `max-limit` as upload/download, and reports true |
| `Mikrotik.MikrotikAPI.AddToAddressList` | MikrotikAPI.php:414-428 | sends the address and list, with a comment only when one is given, and reports true |
| `Mikrotik.MikrotikAPI.GetSystemIdentity` | MikrotikAPI.php:234-238 | the `name` of the first row of `/system/identity/print`, or `Uptime` |
| `Mikrotik.MikrotikAPI.GetHotspotProfiles` | MikrotikAPI.php:259-278 | connects first only when not connected, lists the profiles, and keeps, in order, the rows with both `.id` and `name` |
| `AdminPassword.Trim` | admin/password_change_handler.php:16-19 | PHP `trim` with its default blanks: the result is no longer than the input and has no blank at either end; `TrimShape`, `TrimUnique`, `TrimTwice` and `TrimIgnoresPadding` characterise it |
| `AdminPassword.TrimShape` | admin/password_change_handler.php:16-19 | `trim` keeps the piece between a blank prefix and a blank suffix, and that piece has nothing left to strip |
| `AdminPassword.TrimUnique` | admin/password_change_handler.php:16-19 | conversely, a piece with nothing to strip, padded with blanks, trims to itself |
| `AdminPassword.TrimTwice` | admin/password_change_handler.php:16-19 | trimming twice is trimming once |
| `AdminPassword.TrimIgnoresPadding` | admin/password_change_handler.php:16-19 | blanks added on either side do not change the trimmed string |
| `AdminPassword.AddSlashes` | admin/password_change_handler.php:99 | escaping at most doubles the length |
| `AdminPassword.StripAddSlashes` | admin/password_change_handler.php:99 | `stripslashes` undoes `addslashes` for every string |
| `AdminPassword.AddSlashesReadBack` | admin/password_change_handler.php:99 | an `addslashes`-escaped value inside a single-quoted literal reads back with `"` as `\"` and NUL as `\0`, every other byte as itself |
| `AdminPassword.AddSlashesQuotedBack` | admin/password_change_handler.php:99 | it reads back as itself exactly when it holds no `"` and no NUL |
| `AdminPassword.QuoteStoredWithSlash` | admin/password_change_handler.php:99 | the new password `secret"1` does not read back as itself |
| `AdminPassword.QuoteSingle` | admin/password_change_handler.php:99 | the escaping a single-quoted literal needs at most doubles the length |
| `AdminPassword.SingleQuotedRoundTrip` | admin/password_change_handler.php:99 | every value escaped that way reads back as itself |
| `AdminPassword.SkipSpaces` | admin/password_change_handler.php:98 | a `\s*` run ends at the first byte that is not a PCRE space |
| `AdminPassword.DefineLineMatches` | admin/password_change_handler.php:98-99 | the line written for a key matches the pattern for that key |
| `AdminPassword.FirstDefine` | admin/password_change_handler.php:97-103 | the index found is a matching line with no match before it, and none is found exactly when no line matches |
| `AdminPassword.Rewritten` | admin/password_change_handler.php:97-103 | the first matching line becomes `define('KEY', '` + addslashes(value) + `');` and a newline, every other line is unchanged, and the count is kept |
| `AdminPassword.RewriteTwice` | admin/password_change_handler.php:97-103 | after the rewrite the same line is the first match, and rewriting again changes nothing |
| `AdminPassword.ReplaceDefine` | admin/password_change_handler.php:97-103 | the in-place loop reports a match exactly when some line matches, and leaves the lines as `Rewritten` says |
| `AdminPassword.ConfigUpdate` | admin/password_change_handler.php:80-110 | success exactly when the file exists, is writable, the backup succeeds, some line matches and the write succeeds; the file changes only then, as `Rewritten` says |
| `AdminPassword.UpdateConfigValue` | admin/password_change_handler.php:80-110 | the checks, the backup, the loop on a copy of the lines and the write give exactly `ConfigUpdate`'s result and lines |
| `AdminPassword.Checked` | admin/password_change_handler.php:21-51 | each message comes exactly when all earlier checks pass and its own fails, in the order current, length below 6, confirmation, unchanged; `Failed to update config file` exactly when all four pass and the config update fails; success exactly when all pass and the config update succeeds, and only then do the lines change |
| `AdminPassword.ChangeAdminPassword` | admin/password_change_handler.php:10-52 | the outcome, stated on the raw inputs: `Admin password is not defined` exactly when the constant is undefined. Each later message, `Failed to update config file` included, comes exactly when the earlier checks pass and its own fails, all on the trimmed strings. Success exactly when all checks and the config update pass, and only then do the lines change, to the rewrite with the trimmed new password |
| `AdminPassword.ChangeIgnoresPadding` | admin/password_change_handler.php:16-37 | blanks around the stored password and the three inputs do not change the outcome, with different padding around each of the four strings |
| `AdminPassword.ChangeStoresPassword` | admin/password_change_handler.php:40-51 | after a success, the line that defined the password holds the new trimmed password escaped by `addslashes`, and it reads back as that password exactly when it has no `"` and no NUL |

## Findings

| source | as written | input that shows it | evidently intended | confidence | as-written member | corrected member |
|---|---|---|---|---|---|---|
| admin/password_change_handler.php:99 | the new value is escaped with `addslashes` and written inside a single-quoted PHP literal, where only `\\` and `\'` are escapes | new password `secret"1`: the config then defines `ADMIN_PASSWORD` as `secret\"1`, and the administrator can no longer log in with the password just chosen; a NUL byte likewise becomes `\0` | the defined constant equals the new password: escape only `\` and `'` for a single-quoted literal | not executed; high (PHP's single-quoted string rules) | `AdminPassword.QuoteStoredWithSlash` | `AdminPassword.SingleQuotedRoundTrip` |

The operations (`Rewritten`, `ReplaceDefine`, `UpdateConfigValue`, `ChangeAdminPassword`) keep the `addslashes` of the code. `QuoteSingle` is the escaping that would make the round trip hold.

## Left out

- The socket itself is not modelled: `fsockopen`, `fwrite`, `fread`, `fclose` and the 5 second timeout. Reads are exact slices of a given byte stream, and there are no short writes, no blocking and no transport errors.
- `Connect` with a socket that fails to open while the client is already connected: PHP then stores `false` as the socket and keeps `connected` true. The model leaves the state unchanged.
- `logMessage` calls. They are logging I/O, and the helper lives in config.php, which is not part of this model.
- `formatBytes`, `getActiveUsersBandwidth` and `getTotalDataUsage`. They use floating-point `log`/`pow`/`round` and PHP numeric-string coercion.
- `createBackup`'s default name depends on the wall clock.
- Wrappers with exactly the shape of `Query` or `Command` are not written out one by one: `getHotspotUsers`, `getHotspotActiveUsers`, `getSystemResource`, `getInterfaces`, `getSystemLogs`, `getInterfaceStats`, `getTrafficStats`, `getHotspotCookies`, `getSimpleQueues`, `removeBandwidthLimit`, `getDhcpLeases`, `getDhcpServers`, `getFirewallRules`, `getFirewallAddressLists`, `removeFromAddressList`, `blockMacAddress`, `getConnectionStats`, `listBackups`, `ping`, `getSystemClock`, `rebootRouter`.
- Three more wrappers are not written out and differ from that shape. `blockIpAddress` calls `addToAddressList` with the list `blocked`. `getSystemHealth` sends two print commands, reads twice and returns both row lists under `health` and `resource`. `createBackup` sends `/system/backup/save` with the name and returns that name or `false`; because its check is the raw one that never fires, it always returns the name.
- Wire.DecodeLength: the specification function is stated on the leading byte's ranges. `ReadLength` checks the PHP mask tests against it (`LeadByteMasks`).
- Words of 2^32 bytes or more, whose length the 5-byte prefix truncates (`Framable` excludes them from the round-trip lemmas).
- PHP arrays are ordered maps with integer or string keys. Parsed rows are modelled as `map<Bytes, Bytes>`, without insertion order, and without PHP turning decimal string keys into integers.
- `handlePasswordChange`: `$_POST`, the session and the redirect.
- `updateConfigValue`'s file operations are values: `file_exists`, `is_writable`, `copy` to the dated backup, reading the lines, and `file_put_contents`. The model does not cover what a failed write leaves in the file; the model keeps the old lines. `file` failing to read is not modelled.
- `preg_quote` is taken as making the key match literally. This is exact for the one key used, `ADMIN_PASSWORD`.
- The other files of the system are not part of this model: payment and callback handling, vouchers, the dashboard pages and login, and the browser script.
