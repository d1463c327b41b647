# PrivateBin storage backends and display filters, in Dafny

This project models the two file-style storage backends of PrivateBin. It also models the
filter class that formats time spans and byte counts for display.

- **Filesystem store** (`lib/Data/Filesystem.php`). Pastes and comments are protected
  JSON files in a two-level directory tree. `exists` converts legacy files once. The
  purge limiter, the traffic limiter and the salt are kept as PHP files. The expiry
  sweep walks a shuffled list of all pastes.
  - Modules `FilesystemLayout` (paths, protection line, renaming, salt format, glob
    pattern), `ExpirySweep` (the counting logic of `_getExpiredPastes`) and
    `FilesystemStore` (the class `Filesystem`).
  - The disk is a map from file paths to contents plus a set of directories.
  - A `writable` flag decides whether writes, `mkdir` and `unlink` succeed.
- **S3 store** (`lib/Data/S3Storage.php`). Pastes, comments and configuration values are
  objects of one bucket under an optional key prefix.
  - Module `S3Store` (the class `S3Storage`).
  - The bucket is a map from keys to objects, each with a body and string metadata.
  - The bucket service's paged `listObjects` is modelled concretely: the least
    `pageSize` keys after the marker, in key order.
  - `exists` and `existsComment` are the predicates `S3Storage.Exists` and
    `S3Storage.ExistsComment`.
- **Filter** (`lib/Filter.php`). Module `Filter`: `formatHumanReadableTime` with its
  regular expression and unit normalisation, and `formatHumanReadableSize` with its
  division loop, as a method.
- **Shared modules.**
  - `Strings` models the PHP string built-ins the code relies on: `substr`, `explode`,
    `rtrim`, `(int)`/`(string)` with PHP's 64-bit integers, PHP 8's `is_numeric`, and
    the byte-wise key order.
  - `Records` models:
    - PHP arrays, and PHP 8's `<` between a stored value and an integer.
    - The JSON codec, as an abstract encode/decode pair whose round trip is a
      precondition of the stores.
    - The pre-version-1 upgrade hook.
    - The comment ordering slots `getOpenSlot` hands out.
    - `ksort`, which compares the keys `t` and `t.k` as numbers.

The clock (`time()`) is a parameter. `shuffle` is a method that returns some
permutation.

## Model

| member | source | states |
|---|---|---|
| Strings.Substr | lib/Data/Filesystem.php:435-436 | defines `substr($s, $start, $len)` for a non-negative start and length: empty past the end, cut short at the end |
| Strings.SubstrFromAppend | lib/Data/S3Storage.php:336 | `substr(a . b, strlen(a))` is `b` |
| Strings.Explode | lib/Data/Filesystem.php:224 | `explode` yields at least one piece |
| Strings.ExplodeCons | lib/Data/Filesystem.php:224-227 | exploding a separator-free piece, the separator and a rest gives that piece followed by the pieces of the rest |
| Strings.ExplodeLength | lib/Data/Filesystem.php:325-326 | `explode` yields one piece more than there are separators |
| Strings.RTrim | lib/Filter.php:55 | `rtrim($s, 's')` is a prefix of `s`, does not end in `s`, and only `s` characters were removed |
| Strings.NatToString | lib/Data/S3Storage.php:443 | the decimal form of a natural is a non-empty digit string |
| Strings.IntToString | lib/Data/S3Storage.php:443 | defines `(string)` of an integer: a minus sign before the decimal form of its magnitude when negative |
| Strings.ParseNatToString | lib/Data/S3Storage.php:367 | parsing the decimal form of a natural gives it back |
| Strings.LeadingDigits | lib/Filter.php:39 | the leading digit run is a maximal prefix of digits |
| Strings.StringToInt | lib/Data/S3Storage.php:237 | defines `(int)` of a string: the leading integer after white space and a sign, capped at PHP_INT_MAX and PHP_INT_MIN |
| Strings.IsNumeric | lib/Data/S3Storage.php:237 | defines PHP 8's `is_numeric` on integer forms: white space, an optional sign, digits, then only white space |
| Strings.DigitsToInt | lib/Filter.php:58 | `(int)` of a digit string is its value, capped at PHP_INT_MAX, and the string is numeric |
| Strings.IntPrefixRoundTrip | lib/Data/S3Storage.php:443 | the leading integer of the decimal form of any integer is that integer, and the form is numeric |
| Strings.IntStringRoundTrip | lib/Data/S3Storage.php:443 | `(int)` of `(string)` of a PHP integer gives it back, and `is_numeric` accepts it |
| Strings.OutOfRangeCapped | lib/Data/S3Storage.php:367 | `(int)` of an integer string beyond the 64-bit range gives PHP_INT_MAX or PHP_INT_MIN |
| Strings.WhitespaceNumeric | lib/Data/S3Storage.php:237 | ` 42 ` is numeric and reads as 42 |
| Strings.LeadingNumeric | lib/Data/S3Storage.php:237 | `1abc` is not numeric, while `(int)` reads it as 1 |
| Strings.WordNotNumeric | lib/Data/S3Storage.php:237 | `never` is not numeric and reads as 0 |
| Strings.Less | lib/Data/S3Storage.php:391-409 | defines the byte-wise order in which an S3 listing returns keys: a proper prefix first, else the first differing character decides |
| Strings.LessTotal | lib/Data/S3Storage.php:391-409 | the key order compares any two distinct keys |
| Strings.LessTransitive | lib/Data/S3Storage.php:391-409 | the key order is transitive |
| Strings.LessPrefix | lib/Data/S3Storage.php:391-409 | a key precedes each of its proper extensions |
| Strings.MinKey | lib/Data/S3Storage.php:400 | returns the least key of a non-empty set |
| Records.ToInt | lib/Data/Filesystem.php:232 | defines `(int)` of a PHP value: null is 0, a string reads as StringToInt, an array is 0 or 1 |
| Records.ToStr | lib/Data/S3Storage.php:443 | defines `(string)` of a PHP value: null is `''`, an integer its decimal form, an array `Array` |
| Records.Meta | lib/Data/Filesystem.php:384-385 | defines `$record['meta']` as a map: its entries when it is an array, the empty array otherwise (the store tests `HasMeta` before relying on it) |
| Records.LessThanInt | lib/Data/Filesystem.php:385 | defines PHP 8's `$v < $n` for an integer `$n`: numbers and numeric strings by value, other strings byte-wise against the decimal form of `$n`, null as `false`, an array never below |
| Records.LessThanStoredInt | lib/Data/Filesystem.php:385 | an integer, stored as a number or as its decimal string, is below `$n` exactly when its value is |
| Records.LessThanText | lib/Data/Filesystem.php:385 | `never` is below no integer, `''` below every integer, an array below none |
| Records.CommentTime | lib/Data/Filesystem.php:230-234 | defines a comment's time: `meta.created`, else `meta.postdate`, else 0 |
| Records.OpenSlot | lib/Data/Filesystem.php:230-236 | the slot picked for time `t` is free and belongs to `t`, and every earlier tie of `t` is taken |
| Records.OpenSlotIsFresh | lib/Data/S3Storage.php:194-195 | the first-free-slot strategy always yields an unused slot of the comment's time |
| Records.SlotLess | lib/Data/Filesystem.php:242 | defines `ksort`'s order of slots: by the numeric value of the key `t` or `t.k`, equal values in the order of their ties |
| Records.MinSlot | lib/Data/Filesystem.php:242 | returns the least slot of a non-empty set |
| Records.SortDone | lib/Data/Filesystem.php:242 | when the selection is complete, the entries are sorted, hold every slot once, and carry the map's records |
| Records.SlotLessTransitive | lib/Data/Filesystem.php:242 | the `ksort` order of slots is transitive |
| Records.SlotLessTotal | lib/Data/Filesystem.php:242 | the `ksort` order is strict and total: no slot precedes itself, and of two distinct slots one precedes the other |
| Records.EarlierTimeFirst | lib/Data/Filesystem.php:241-242 | oldest first: a slot of an earlier time precedes every slot of a later time |
| Records.TiesAsDecimals | lib/Data/Filesystem.php:242 | the keys compare as decimals: `t` before `t.1`, `t.1` before `t.10`, `t.10` before `t.2` and before `t.9` |
| Records.KSort | lib/Data/Filesystem.php:242 | `ksort` returns the map's entries, each slot once, ordered by the number each key `t.k` stands for, and keys of equal number by their tie index |
| FilesystemLayout.DataIdToPath | lib/Data/Filesystem.php:432-437 | defines the paste directory: `path/`, the first two characters of the id, `/`, the next two, `/` |
| FilesystemLayout.DataIdToDiscussionPath | lib/Data/Filesystem.php:448-452 | defines the discussion directory: the paste directory, then `id.discussion/` |
| FilesystemLayout.PasteFile | lib/Data/Filesystem.php:88-89 | defines the paste file: the paste directory, the id and `.php` |
| FilesystemLayout.LegacyPasteFile | lib/Data/Filesystem.php:158 | defines the paste file of before the protection line: the paste directory and the id |
| FilesystemLayout.CommentFile | lib/Data/Filesystem.php:192-193 | defines the comment file `pasteid.commentid.parentid.php` in the discussion directory |
| FilesystemLayout.Protect | lib/Data/Filesystem.php:466 | defines what `_store` writes: the protection line, the end of line, then the JSON |
| FilesystemLayout.SaltContent | lib/Data/Filesystem.php:285-287 | defines the salt file's content: `<?php # |`, the value and a closing bar |
| FilesystemLayout.IsLegacyName | lib/Data/Filesystem.php:169 | defines the names the comment conversion renames: 16 characters or more and no `.php` suffix |
| FilesystemLayout.MatchesPastePattern | lib/Data/Filesystem.php:37-40 | defines a match of PASTE_FILE_PATTERN below the directory: two hex digits, two hex digits, sixteen hex digits, then anything without a separator |
| FilesystemLayout.FanOut | lib/Data/Filesystem.php:432-437 | a paste directory is the storage directory, the id's first two characters and its next two, separated by `/` |
| FilesystemLayout.PrependRenamed | lib/Data/Filesystem.php:530-540 | defines `_prependRename`: the destination gets the protection line and the source's content unless it exists, and the source goes |
| FilesystemLayout.SaltOf | lib/Data/Filesystem.php:322-331 | defines `getValue('salt')` on the file's content: the middle piece of three bar-separated pieces, else `''` |
| FilesystemLayout.Parent | lib/Data/Filesystem.php:432-437 | the directory part of a path is a directory prefix after which no separator follows |
| FilesystemLayout.ParentOfChild | lib/Data/Filesystem.php:450-451 | a separator-free name lies directly in its directory |
| FilesystemLayout.ParentOfSuffixed | lib/Data/Filesystem.php:169-171 | appending `.php` keeps a file in its directory |
| FilesystemLayout.PasteLayout | lib/Data/Filesystem.php:432-452 | a paste lives in `path/ab/cd/`, and its files and discussion directory lie where `_dataid2path` and `_dataid2discussionpath` put them |
| FilesystemLayout.PasteFileParent | lib/Data/Filesystem.php:88-89 | with a separator-free id, the paste file and its legacy form lie directly in the paste directory |
| FilesystemLayout.CommentLayout | lib/Data/Filesystem.php:192-193 | a comment file lies directly in its paste's discussion directory |
| FilesystemLayout.PasteFileInjective | lib/Data/Filesystem.php:88-89 | different paste ids are stored in different files |
| FilesystemLayout.CommentIsNotPaste | lib/Data/Filesystem.php:193 | a comment file is never a paste file |
| FilesystemLayout.LayoutExample | lib/Data/Filesystem.php:426 | `e3570978f9e4aa90` is stored below `data/e3/57/` |
| FilesystemLayout.UnprotectProtect | lib/Data/Filesystem.php:408-416 | `_get` strips exactly the protection line `_store` puts in front |
| FilesystemLayout.RenamedAt | lib/Data/Filesystem.php:530-540 | after renaming a set of legacy files, each source is gone, others keep their contents, and a `.php` name holds the protected source unless it already existed |
| FilesystemLayout.RenamedTarget | lib/Data/Filesystem.php:533 | the target of the next rename is present exactly when it was at the start |
| FilesystemLayout.RenamedStep | lib/Data/Filesystem.php:530-540 | one more `_prependRename` extends the renamed set by one file |
| FilesystemLayout.RenamedParents | lib/Data/Filesystem.php:530-540 | renaming keeps every file in its directory |
| FilesystemLayout.LegacyCommentsNoSuffix | lib/Data/Filesystem.php:169 | the files the comment conversion renames have no `.php` suffix |
| FilesystemLayout.SaltRoundTrip | lib/Data/Filesystem.php:283-287 | the salt reads back exactly when it holds no bar separator, and one holding a bar reads back as `''` |
| FilesystemLayout.SaltReadsBack | lib/Data/Filesystem.php:322-329 | a value free of the bar separator, written between two bars, is what `getValue('salt')` returns |
| FilesystemLayout.SaltLost | lib/Data/Filesystem.php:322-331 | a value holding the bar separator reads back as the empty string |
| FilesystemLayout.BaseName | lib/Data/Filesystem.php:357 | `getBasename('.php')` holds no separator |
| FilesystemLayout.PasteNameMatches | lib/Data/Filesystem.php:37-40 | a paste directory entry starting with the id matches PASTE_FILE_PATTERN |
| FilesystemLayout.PasteNameBase | lib/Data/Filesystem.php:355-358 | the base name of a paste file or its legacy form is the paste id |
| FilesystemLayout.PasteFileListed | lib/Data/Filesystem.php:37-40 | both forms of a paste file match the pattern and are listed under the paste id |
| ExpirySweep.SweepFrom | lib/Data/Filesystem.php:380-396 | defines the loop over the statuses: a missing paste is skipped, an unreadable one ends the sweep, an expired one is collected, with the batch and open-limit breaks in source order |
| ExpirySweep.SweepVisits | lib/Data/Filesystem.php:380-396 | the sweep looks at a prefix of the shuffled list |
| ExpirySweep.SweepBounds | lib/Data/Filesystem.php:376-394 | at most `max(batch, 1)` ids are collected and at most `max(10 * batch, 1)` pastes opened |
| ExpirySweep.SweepCollects | lib/Data/Filesystem.php:380-396 | what the sweep collects is exactly the expired ids among those it looked at, and it fails exactly when it met a paste whose reading or expiry test throws |
| ExpirySweep.SweepComplete | lib/Data/Filesystem.php:365-399 | when the expired ids fit the batch and the existing ones the open limit, every expired id is collected |
| ExpirySweep.NoneExpired | lib/Data/Filesystem.php:383-387 | with no expired paste nothing is collected |
| ExpirySweep.NothingLeft | lib/Data/Filesystem.php:381 | a list with no existing paste holds no expired one |
| ExpirySweep.SweepAtSuffix | lib/Data/Filesystem.php:380 | the loop from position `i` is the sweep of the remaining list |
| ExpirySweep.ResumeStart | lib/Data/Filesystem.php:373-375 | before the first id the loop state says the whole sweep is still to come |
| ExpirySweep.ResumeEnd | lib/Data/Filesystem.php:398 | after the last id, the sweep has collected exactly what the loop holds |
| ExpirySweep.ResumeMissing | lib/Data/Filesystem.php:381 | a missing paste is skipped without counting |
| ExpirySweep.ResumeUnreadable | lib/Data/Filesystem.php:382-385 | a paste whose reading or expiry test throws ends the sweep with that error |
| ExpirySweep.ResumeLive | lib/Data/Filesystem.php:392-394 | a live paste counts as opened and ends the sweep at the open limit |
| ExpirySweep.ResumeExpired | lib/Data/Filesystem.php:383-394 | an expired paste is collected, and the sweep ends on a full batch or at the open limit |
| ExpirySweep.Tally | lib/Data/Filesystem.php:381-395 | one round of the loop keeps the sweep's state, or stops with the sweep's result |
| FilesystemStore.Outcome | lib/Data/Filesystem.php:107-117 | defines `read` of an existing paste file: the decoder's exception, false for an empty array, else the upgraded paste |
| FilesystemStore.HasMeta | lib/Data/Filesystem.php:384 | defines when `$data['meta']` is an array, so that `array_key_exists` on it does not throw |
| FilesystemStore.Expires | lib/Data/Filesystem.php:384-385 | defines the expiry test: `expire_date` is in `meta` and below the time by LessThanInt |
| FilesystemStore.Judge | lib/Data/Filesystem.php:382-386 | defines the status of an existing paste from its `read`: unreadable when the decoder throws, when `read` gives false or when `meta` is no array; else expired or live by Expires |
| FilesystemStore.JudgeStoredExpiry | lib/Data/Filesystem.php:384-385 | a paste whose `expire_date` is an integer, stored as a number or as its string, is expired exactly when that integer is below the time, and live otherwise |
| FilesystemStore.JudgeWithoutExpiry | lib/Data/Filesystem.php:382-385 | without `expire_date` a paste is live; without a `meta` array, or read as false or undecodable, its test throws |
| FilesystemStore.Annotate | lib/Data/Filesystem.php:224-227 | defines the ids a comment gets: pieces 1 and 2 of its file name split at `.`, null where missing |
| FilesystemStore.CommentOf | lib/Data/Filesystem.php:222-227 | defines one comment file's entry: `_get` of the file, annotated, or None when the decoder throws |
| FilesystemStore.CommentReads | lib/Data/Filesystem.php:223-234 | defines when `readComments` gets past a file: it decodes and its `meta` is an array, so `array_key_exists` does not throw |
| FilesystemStore.CommentReadsDecoded | lib/Data/Filesystem.php:223-234 | injecting the ids leaves `meta` alone: a file reads exactly when its decoded record has a `meta` array |
| FilesystemStore.Converted | lib/Data/Filesystem.php:156-179 | defines the files after `exists`: the legacy paste file and legacy comment files renamed, nothing changed on a medium that cannot write |
| FilesystemStore.Deleted | lib/Data/Filesystem.php:124-147 | defines the files after `delete`: when the paste directory exists, without the paste file and without the discussion directory's files |
| FilesystemStore.StoredPasteReadsBack | lib/Data/Filesystem.php:107-117 | what `_store` writes reads back upgraded, and a version 2 paste unchanged |
| FilesystemStore.AnnotateCommentName | lib/Data/Filesystem.php:224-227 | a comment written by `createComment` gets its own id and parent id back from its file name |
| FilesystemStore.DiscussionIsDeeper | lib/Data/Filesystem.php:448-452 | files of the discussion directory are neither the paste file nor its legacy form |
| FilesystemStore.ConvertedPasteFiles | lib/Data/Filesystem.php:161-175 | the comment conversion never touches the paste's own files |
| FilesystemStore.ConvertedExists | lib/Data/Filesystem.php:156-179 | `exists` is true afterwards exactly when the paste file was there, or its legacy form was there and the store can write |
| FilesystemStore.ConvertedKeepsPaste | lib/Data/Filesystem.php:532-533 | an already protected paste file is never overwritten |
| FilesystemStore.ConvertedLegacyPaste | lib/Data/Filesystem.php:161-162 | a legacy paste gets the protection line in front of its JSON, and the legacy file goes |
| FilesystemStore.ConvertedIdempotent | lib/Data/Filesystem.php:156-179 | a second `exists` changes nothing |
| FilesystemStore.ConvertedParents | lib/Data/Filesystem.php:156-179 | the conversion keeps every file in its directory |
| FilesystemStore.ConvertCommentStep | lib/Data/Filesystem.php:168-172 | one round of the comment loop renames the file exactly when it has a legacy name |
| FilesystemStore.ConvertCommentAt | lib/Data/Filesystem.php:169-171 | the loop's name test is the legacy-name test, and one round advances the renamed set by that file |
| FilesystemStore.DeletedRemovesOnly | lib/Data/Filesystem.php:124-147 | `delete` removes the paste file and the files of its discussion directory and nothing else |
| FilesystemStore.DeleteStep | lib/Data/Filesystem.php:138-141 | one round of the unlink loop removes that file |
| FilesystemStore.DeletedFacts | lib/Data/Filesystem.php:124-147 | afterwards no paste file and no discussion file is left, and every file still lies in a directory |
| FilesystemStore.DeletedGone | lib/Data/Filesystem.php:124-147 | after `delete`, `existsComment` is false for the paste's comments and `exists` is false unless a suffix-less legacy paste file, which `delete` leaves, can be converted |
| FilesystemStore.ImageUpdate | lib/Data/Filesystem.php:236 | a new slot adds its file to the files behind the slots |
| FilesystemStore.CollectedFilesStep | lib/Data/Filesystem.php:217-237 | one round of the `readComments` loop gives the visited file a slot of its own |
| FilesystemStore.CollectedCommentsStep | lib/Data/Filesystem.php:223-236 | every slot holds the annotated comment of its file, under its creation time |
| FilesystemStore.CommentsStep | lib/Data/Filesystem.php:217-238 | one round of the loop keeps the loop's invariant |
| FilesystemStore.SourcesOf | lib/Data/Filesystem.php:242 | names the file behind each sorted entry |
| FilesystemStore.CommentsDone | lib/Data/Filesystem.php:211-246 | the sorted comments stand for the directory's files one for one, each decoded and annotated, and no file failed to decode or lacked a `meta` array |
| FilesystemStore.VisitedAll | lib/Data/Filesystem.php:217-238 | a finished loop has read every file of the directory without an exception |
| FilesystemStore.SourcesCover | lib/Data/Filesystem.php:217-242 | the files behind the sorted entries are every file of the directory, once each |
| FilesystemStore.SourcesDecode | lib/Data/Filesystem.php:223-236 | each sorted entry is the comment of its file |
| FilesystemStore.ListStep | lib/Data/Filesystem.php:355-358 | one round of the listing loop keeps `pastes` the base names of the files visited |
| FilesystemStore.Shuffle | lib/Data/Filesystem.php:379 | `shuffle` returns a permutation |
| FilesystemStore.Filesystem.BaseFiles | lib/Data/Filesystem.php:285-293 | the `.htaccess` and salt files lie directly in the storage directory |
| FilesystemStore.Filesystem.constructor | lib/Data/Filesystem.php:68-77 | the data directory is the `dir` option, `data` by default |
| FilesystemStore.Filesystem.PrepareBase | lib/Data/Filesystem.php:483-506 | creates the storage directory and `.htaccess` as needed, and fails only on a medium that cannot write when one is missing |
| FilesystemStore.Filesystem.WriteFile | lib/Data/Filesystem.php:508-518 | the file holds the data exactly when the medium can write and its directory exists |
| FilesystemStore.Filesystem.StoreString | lib/Data/Filesystem.php:481-522 | true exactly when the file now holds the data, with the storage directory and `.htaccess` in place |
| FilesystemStore.Filesystem.Store | lib/Data/Filesystem.php:461-471 | writes the protection line and the JSON, and returns false when the record cannot be encoded |
| FilesystemStore.Filesystem.Create | lib/Data/Filesystem.php:86-98 | never overwrites, and succeeds exactly when the paste file is new, the medium can write and the paste encodes; the new directories are the paste directory's tree made by the recursive `mkdir`, plus the storage directory once the paste encodes; the files are unchanged exactly when the paste file existed or the paste does not encode, else `.htaccess` is added |
| FilesystemStore.Filesystem.PrependRename | lib/Data/Filesystem.php:530-540 | the destination gets the protected source unless it exists, and the source goes |
| FilesystemStore.Filesystem.ConvertComment | lib/Data/Filesystem.php:168-173 | one round of the comment loop of `exists` |
| FilesystemStore.Filesystem.ConvertComments | lib/Data/Filesystem.php:165-175 | every legacy comment file of the directory is renamed to its `.php` name |
| FilesystemStore.Filesystem.Exists | lib/Data/Filesystem.php:156-179 | converts the paste's legacy files, then tests for the protected paste file |
| FilesystemStore.Filesystem.Read | lib/Data/Filesystem.php:107-117 | false without a paste or with an empty array, the decoder's exception on bad JSON, the upgraded paste otherwise |
| FilesystemStore.Filesystem.UnlinkAll | lib/Data/Filesystem.php:137-143 | removes every file of the directory |
| FilesystemStore.Filesystem.Delete | lib/Data/Filesystem.php:124-147 | removes the paste file, every discussion file, then the empty discussion directory; afterwards `existsComment` finds none of the paste's comments |
| FilesystemStore.Filesystem.ExistsComment | lib/Data/Filesystem.php:257-263 | defines `existsComment`: the comment file `pasteid.commentid.parentid.php` is present; `CreateComment` refuses exactly such a comment |
| FilesystemStore.Filesystem.CreateComment | lib/Data/Filesystem.php:190-202 | never overwrites, stores the protected JSON; the new directories are the discussion directory's tree made by the recursive `mkdir`, plus the storage directory once the comment encodes; the files are unchanged exactly when the comment existed or does not encode, else `.htaccess` is added |
| FilesystemStore.Filesystem.GatherComments | lib/Data/Filesystem.php:216-238 | each file decoded and annotated under a fresh slot of its creation time, or the failure when one does not decode or has no `meta` array (the TypeError of `array_key_exists`) |
| FilesystemStore.Filesystem.ReadComments | lib/Data/Filesystem.php:211-246 | every comment file once, decoded and annotated, in `ksort`'s slot order; no comments without a discussion directory; the failure exactly when a file does not decode or its record has no `meta` array |
| FilesystemStore.Filesystem.SetValue | lib/Data/Filesystem.php:274-299 | stores the purge limiter, the salt or the traffic limiter cache; false for any other namespace |
| FilesystemStore.Filesystem.GetValue | lib/Data/Filesystem.php:309-347 | `''` without an entry; the salt as `SaltOf` of the salt file, so a stored salt comes back exactly when it holds no bar and as `''` when it does; the limiter values from the stored state |
| FilesystemStore.Filesystem.GetAllPastes | lib/Data/Filesystem.php:352-362 | the base names of the files matching PASTE_FILE_PATTERN, once per file |
| FilesystemStore.Filesystem.StatusAt | lib/Data/Filesystem.php:381-386 | defines what the loop learns of one id: missing without the paste file after conversion, else Judge of its `read` |
| FilesystemStore.Filesystem.Statuses | lib/Data/Filesystem.php:381-386 | one status per listed id |
| FilesystemStore.Filesystem.ConvertedAllSnoc | lib/Data/Filesystem.php:381 | looking up one more id converts that paste's files |
| FilesystemStore.Filesystem.LookupStep | lib/Data/Filesystem.php:381-386 | the lookup of the next id finds the status the sweep expects |
| FilesystemStore.Filesystem.Lookup | lib/Data/Filesystem.php:381-386 | `exists`, then `read` and the expiry test: the status StatusAt gives and the files Converted gives |
| FilesystemStore.Filesystem.GetExpiredPastes | lib/Data/Filesystem.php:365-399 | the listed ids shuffled and swept, as ExpirySweep describes |
| FilesystemStore.Filesystem.SweepPastes | lib/Data/Filesystem.php:380-396 | the loop over the shuffled ids is the sweep over the statuses its lookups find |
| FilesystemStore.Filesystem.Visit | lib/Data/Filesystem.php:381-395 | one round: look the id up, count it, say whether the loop stops |
| Filter.PluralIndex | lib/Filter.php:58 | defines the English plural rule: form 0 for a count of one, form 1 otherwise |
| Filter.Translate | lib/Filter.php:58 | defines `I18n::_` with plural forms and a count in the default locale: the form the rule picks, with `%d` replaced by the count |
| Filter.IsTimeMatch | lib/Filter.php:39 | defines a match of `^(\d+) *(\w+)$` with its two groups, `$` also before a final newline |
| Filter.ParseTime | lib/Filter.php:39 | defines the groups `preg_match` captures, the digit group as long as a match allows |
| Filter.ParseLine | lib/Filter.php:39 | defines the match on the line: the leading digits, then spaces, then a word; with no space the digit group gives its last digit to the unit |
| Filter.ParseUnit | lib/Filter.php:39 | defines the groups once digits and spaces end: a non-empty word up to the end, else no match |
| Filter.LeadingSpaces | lib/Filter.php:39 | the run of spaces is a maximal prefix of spaces |
| Filter.ParseTimeSound | lib/Filter.php:39 | what the parser captures is a match of `^(\d+) *(\w+)$` |
| Filter.ParseLineSound | lib/Filter.php:39 | on a line, the groups and the spaces rebuild the input |
| Filter.ParseTimeComplete | lib/Filter.php:39 | every match is found, with the longest digit group |
| Filter.ParseLineComplete | lib/Filter.php:39 | every match of a line is found |
| Filter.CompleteWithSpaces | lib/Filter.php:39 | with spaces between them, the groups are exactly the digits and the unit |
| Filter.CompleteWithoutSpaces | lib/Filter.php:39 | without spaces, the digit group takes every digit it can |
| Filter.NormalizeUnit | lib/Filter.php:43-56 | `sec` and `min` are spelled out, and otherwise every trailing `s` is dropped |
| Filter.FormatHumanReadableTime | lib/Filter.php:37-59 | an unparsable input fails with code 30; otherwise the count is `(int)` of the digit group, capped at PHP_INT_MAX |
| Filter.FormatTimeFailsIffNoMatch | lib/Filter.php:39-41 | the formatting fails exactly when the input does not match the expression |
| Filter.FormatTimeOfNumberAndUnit | lib/Filter.php:37-59 | a number, spaces and a unit give the number, capped at PHP_INT_MAX as `(int)` caps it, and the normalised unit, singular for one |
| Filter.TranslateCount | lib/Filter.php:58 | the English plural forms: the count and the unit, with an `s` unless the count is one |
| Filter.TimeExampleMinutes | lib/Filter.php:49-51 | `5min` is `5 minutes` |
| Filter.TimeExampleSeconds | lib/Filter.php:44-46 | `90sec` is `90 seconds` |
| Filter.TimeExampleWeek | lib/Filter.php:54-55 | `1week` is `1 week` |
| Filter.TimeExampleMonths | lib/Filter.php:54-55 | `6months`, the test vector, and `6 months` both format to `6 months` |
| Filter.TimeExampleInvalid | lib/Filter.php:39-40 | `five_minutes` fails with code 30 |
| Filter.Round | lib/Filter.php:79 | defines rounding half away from zero, as `number_format` rounds |
| Filter.NumberFormat | lib/Filter.php:79 | defines `number_format($x, $d, '.', ' ')` for 0 or 2 decimals: thousands grouped by spaces, a point before two decimals |
| Filter.SizeLabel | lib/Filter.php:70-80 | defines the label: the size over 1024 to the unit index, formatted with no decimals in bytes and two otherwise, then the unit |
| Filter.IecIndex | lib/Filter.php:73-77 | defines the unit index: how often the size divides by 1024 while it stays at least 1024 |
| Filter.IecIndexBounds | lib/Filter.php:73-77 | unit `i` satisfies 1024^i <= size < 1024^(i+1) |
| Filter.SizeLabelBytes | lib/Filter.php:79 | zero decimals exactly below 1024 bytes, grouped in thousands |
| Filter.SizeExampleBytes | lib/Filter.php:79 | `1` is `1 B` and `1000` is `1 000 B` |
| Filter.SizeExampleKibibyte | lib/Filter.php:79 | `1024` is `1.00 KiB` |
| Filter.SizeExampleRounded | lib/Filter.php:79 | `1234` is `1.21 KiB` |
| Filter.DivideStep | lib/Filter.php:74-77 | one pass of the division loop keeps the scaled size and stays within the unit index |
| Filter.DivideExit | lib/Filter.php:74 | when the loop stops it has reached the unit index |
| Filter.FormatHumanReadableSize | lib/Filter.php:70-80 | the label of the size in the unit 1024^i with 1024^i <= size < 1024^(i+1), in bytes below 1024 |
| S3Store.PasteKey | lib/Data/S3Storage.php:418-425 | defines `_getKey`: the prefix, `/` and the id, or the id alone without a prefix |
| S3Store.CommentKey | lib/Data/S3Storage.php:170 | defines the comment key: the paste key, `/discussion/`, the parent id, `/` and the comment id, as `createComment` and `existsComment` build it |
| S3Store.ConfigPath | lib/Data/S3Storage.php:261-267 | defines the namespace key: the prefix and `/` when set, `config/` and the namespace |
| S3Store.ConfigKey | lib/Data/S3Storage.php:266-270 | defines the value key: the namespace key for an empty key, else the namespace key, `/` and the key |
| S3Store.PasteKeyLayout | lib/Data/S3Storage.php:418-425 | a paste key is the base followed by the id, and different ids have different keys |
| S3Store.KeyKinds | lib/Data/S3Storage.php:336-338 | below the base, only paste keys hold no `/`, so only pastes pass the `getAllPastes` filter |
| S3Store.CommentUnderDiscussion | lib/Data/S3Storage.php:170 | every comment key lies under its paste's discussion prefix |
| S3Store.DiscussionsDisjoint | lib/Data/S3Storage.php:124-152 | nothing of another paste lies under a paste's discussion prefix |
| S3Store.ConfigKeysDistinct | lib/Data/S3Storage.php:266-270 | distinct namespace/key pairs have distinct keys |
| S3Store.SelectDone | lib/Data/S3Storage.php:400 | a finished selection is one listing page |
| S3Store.SortedDistinct | lib/Data/S3Storage.php:402-405 | a sorted listing names no key twice |
| S3Store.AfterPage | lib/Data/S3Storage.php:404 | after a page, the keys after its last key are those still pending |
| S3Store.DrainStep | lib/Data/S3Storage.php:399-406 | appending a page keeps the listing sorted and complete up to the marker |
| S3Store.MetadataOf | lib/Data/S3Storage.php:440-444 | defines the metadata `_upload` stores: `meta` without the attachment fields and the salt, each value `(string)`-cast |
| S3Store.ConfigMetadata | lib/Data/S3Storage.php:271-275 | defines the metadata `setValue` stores: the namespace, and the value as a string unless the namespace is `salt` |
| S3Store.Stale | lib/Data/S3Storage.php:235-237 | defines `purgeValues`' test: a `value` entry that is numeric and whose `(int)` is below the time |
| S3Store.InNamespace | lib/Data/S3Storage.php:228 | defines `purgeValues`' key test: the namespace key itself, or a key continuing it with `/` |
| S3Store.Purged | lib/Data/S3Storage.php:226-248 | defines the objects `purgeValues` removes: present, in the namespace or below it, and stale |
| S3Store.ConfigKeyInNamespace | lib/Data/S3Storage.php:228 | a configuration key passes `purgeValues`' namespace test |
| S3Store.MetadataKeepsInts | lib/Data/S3Storage.php:440-444 | an integer `meta` field is copied so that `(int)` of the copy gives it back |
| S3Store.SaltNeverPurged | lib/Data/S3Storage.php:273-274 | a salt has no `value` metadata, so `purgeValues` never removes it |
| S3Store.StaleEntryPurged | lib/Data/S3Storage.php:235-246 | a limiter entry with a value below the time is removed |
| S3Store.PurgeSparesSiblings | lib/Data/S3Storage.php:228-230 | `purgeValues` of one namespace spares other namespaces, also those that extend its name |
| S3Store.PastesIn | lib/Data/S3Storage.php:335-339 | defines the ids `getAllPastes` keeps: what follows the base in each listed key, when it holds no `/`, in listing order |
| S3Store.PastesInMembers | lib/Data/S3Storage.php:335-339 | the ids kept are exactly those free of `/` whose key is listed |
| S3Store.ExpiredObject | lib/Data/S3Storage.php:366-369 | defines the scan's test: an `expire_date` entry whose `(int)` is non-zero and below the time |
| S3Store.ScanFrom | lib/Data/S3Storage.php:361-376 | defines the corrected scan: each expired object's key collected, stopping once the limit is reached |
| S3Store.ScanBounds | lib/Data/S3Storage.php:361-376 | the scan collects at most its limit, and only expired keys |
| S3Store.ScanComplete | lib/Data/S3Storage.php:361-376 | a scan that stops short of its limit collected every expired key it passed |
| S3Store.ScanKeeps | lib/Data/S3Storage.php:369 | the scan only adds to what it collected |
| S3Store.ExpiredKeysAsWritten | lib/Data/S3Storage.php:351-382 | the code as written returns at most one key more than the batch size |
| S3Store.ScanOvershoots | lib/Data/S3Storage.php:373 | with batch size 1 and two expired pastes, both keys are returned |
| S3Store.ExpiredKeyMissesPaste | lib/Data/S3Storage.php:369 | under a prefix the returned key is not an id: deleting it misses the paste |
| S3Store.IdsOf | lib/Data/S3Storage.php:369 | defines the corrected ids of the collected keys: each key without the base, one id per key |
| S3Store.IdsReachKeys | lib/Data/S3Storage.php:418-425 | the ids after the base name the keys they come from |
| S3Store.CommentIdsAsWritten | lib/Data/S3Storage.php:191-193 | defines the ids as written: pieces 3 and 2 of the whole key |
| S3Store.CommentIds | lib/Data/S3Storage.php:191-193 | defines the corrected ids: pieces 1 and 0 of the key after the discussion prefix |
| S3Store.CreatedAt | lib/Data/S3Storage.php:194 | defines `(int) $metadata['created']`, 0 when missing |
| S3Store.CommentIdsOfKey | lib/Data/S3Storage.php:170 | read after the discussion prefix, a comment key gives back its comment id and parent id |
| S3Store.StoredCommentReadsBack | lib/Data/S3Storage.php:165-195 | a stored comment reads back with its ids, and its creation time comes back from the metadata |
| S3Store.ExplodeSegments | lib/Data/S3Storage.php:191 | `explode('/')` of four `/`-free segments gives those four |
| S3Store.CommentIdsAsWrittenUnprefixed | lib/Data/S3Storage.php:191-193 | without a prefix, pieces 3 and 2 of the key are the comment and parent ids |
| S3Store.CommentIdsPrefixed | lib/Data/S3Storage.php:191-193 | under a prefix, as written, the comment gets its parent's id as `id` and `discussion` as `parentid` |
| S3Store.StoredPasteReadsBack | lib/Data/S3Storage.php:103-112 | a paste stored by `_upload` reads back unchanged |
| S3Store.CopyMetadata | lib/Data/S3Storage.php:440-444 | the copy of `meta` without the attachment fields and the salt, each value cast to a string |
| S3Store.S3Storage.constructor | lib/Data/S3Storage.php:80-82 | the prefix is the `prefix` option, empty by default |
| S3Store.S3Storage.ListObjects | lib/Data/S3Storage.php:400-401 | a page: the least keys after the marker in order, `pageSize` at most, truncated exactly when more remain |
| S3Store.S3Storage.ListAllObjects | lib/Data/S3Storage.php:391-409 | every key under the prefix, once, in key order |
| S3Store.S3Storage.Upload | lib/Data/S3Storage.php:438-462 | the JSON body and the metadata copy under the key; false exactly when encoding fails |
| S3Store.S3Storage.Exists | lib/Data/S3Storage.php:157-160 | defines `exists`: the paste key is in the bucket; `Create` refuses exactly such an id |
| S3Store.S3Storage.Create | lib/Data/S3Storage.php:91-98 | refuses an existing id, otherwise uploads the paste |
| S3Store.ReadOf | lib/Data/S3Storage.php:103-119 | defines `read` of a key: false without an object, the exception on bad JSON, else the decoded paste |
| S3Store.S3Storage.Read | lib/Data/S3Storage.php:103-119 | the decoded paste, false without an object, the exception on bad JSON |
| S3Store.S3Storage.DeleteObjects | lib/Data/S3Storage.php:130-139 | deletes exactly the listed objects |
| S3Store.S3Storage.Delete | lib/Data/S3Storage.php:124-152 | removes every object under the discussion prefix and the paste's object, nothing else |
| S3Store.S3Storage.ExistsComment | lib/Data/S3Storage.php:207-212 | defines `existsComment`: the comment key is in the bucket; `CreateComment` refuses exactly such a comment |
| S3Store.S3Storage.CreateComment | lib/Data/S3Storage.php:165-173 | refuses an existing comment, otherwise uploads it under its key |
| S3Store.S3Storage.ReadComments | lib/Data/S3Storage.php:178-202 | corrected: every object under the discussion prefix in listing order, decoded, with its ids read after the discussion prefix (CommentIds, where the code as written is CommentIdsAsWritten) and a fresh slot of its `created` time; None exactly when a body does not decode |
| S3Store.S3Storage.SetValue | lib/Data/S3Storage.php:259-293 | the value under the configuration key, with the namespace and (except for the salt) the value as metadata |
| S3Store.ValueOf | lib/Data/S3Storage.php:298-321 | defines `getValue` of a key: the body, or `''` without an object |
| S3Store.S3Storage.GetValue | lib/Data/S3Storage.php:298-321 | the body under the configuration key, or `''` |
| S3Store.S3Storage.PurgeValues | lib/Data/S3Storage.php:217-252 | removes exactly the namespace's own or nested objects whose numeric `value` is below the time |
| S3Store.S3Storage.GetAllPastes | lib/Data/S3Storage.php:326-346 | an id is returned exactly when it holds no `/` and its paste key is in the bucket |
| S3Store.S3Storage.GetExpiredPastes | lib/Data/S3Storage.php:351-382 | corrected: at most the batch size of ids, each naming an expired paste, and all of them when fewer were found |
| S3Store.S3Storage.ScanListing | lib/Data/S3Storage.php:361-376 | the loop yields the ids of the scan's keys |
| S3Store.AppendPage | lib/Data/S3Storage.php:402-405 | each key of the page is appended and the marker moves to the last |
| S3Store.DrainedAll | lib/Data/S3Storage.php:406 | once nothing follows the marker, the gathered keys are the whole listing |
| S3Store.CommentsReadStep | lib/Data/S3Storage.php:185-196 | one round of the `readComments` loop keeps its invariant |
| S3Store.ExpiredIds | lib/Data/S3Storage.php:351-382 | what the corrected scan yields: bounded by the batch, expired pastes, complete when short |
| S3Store.ValueReadsBack | lib/Data/S3Storage.php:259-321 | what `setValue` stored, `getValue` returns |
| S3Store.PurgedAmongAll | lib/Data/S3Storage.php:226-248 | across the whole listing, the loop has deleted exactly the purged objects |

## Left out

- Exceptions of the S3 client and the network are left out. `putObject`, `deleteObject` and `headObject` always succeed, and `getObject` fails only on a missing key.
- `S3Store.S3Storage.Upload` returns false where the JSON encoder throws. The source lets that exception escape through `create` and `createComment`.
- `is_numeric` and `(int)` of a string cover the integer forms only: white space, an optional sign and digits. Forms with a decimal point or an exponent are not modelled.
- `FilesystemStore.Expires`: a string `expire_date` with a decimal point or an exponent is compared as text, where PHP 8 compares it as a number.
- `Records.Value` has no booleans and no floating-point numbers, so a paste or comment holding JSON `true`, `false` or a fraction is not modelled.
- `Records.SlotLess` compares the keys `t.k` as exact decimals. PHP compares them as doubles, which round two keys together only when one second holds about a million comments or more.
- `Records.CommentTime`: a comment without `created` or `postdate` gets time 0. In the source, `(int)` applies to the `array_key_exists` test rather than to the time, so a timestamp stored as a string is used uncast.
- `Records.Meta` reads a `meta` that is present but not an array as the empty array. The filesystem store guards every use of it with `FilesystemStore.HasMeta`, as PHP's TypeError would. In the S3 `_upload`, where PHP would fail on `unset` of a scalar's offset or store no metadata, `S3Store.MetadataOf` stores no metadata.
- The success of `mkdir` is decided by the `writable` flag. File permissions (`chmod`), `LOCK_EX` and partial writes are not modelled.
- The limiter files `purge_limiter.php` and `traffic_limiter.php` are PHP code that `require` runs. They are modelled as the values they define, so `var_export` and the PHP syntax are not.
- The clock is a parameter. `shuffle` returns some permutation, and the order of `dir->read()` is arbitrary.
- `formatHumanReadableSize` divides in floating point. The model divides exactly in reals, so rounding at the last decimal can differ for very large sizes, and `number_format`'s binary rounding is not modelled. Sizes at or beyond 1024^9 bytes, which would index past `YiB`, are excluded by the precondition.
- `I18n::_` is modelled for the default English locale without translations. Other locales and plural rules are not.
- The S3 `readComments` does not `ksort`. The model keeps the listing order, as the source does.
- The client options of the S3 constructor (credentials, region, endpoint, bucket name) configure the network client only, and are not modelled.

## Findings

| source | as written | input that shows it | evidently intended | confidence | as-written member | corrected member |
|---|---|---|---|---|---|---|
| lib/Data/S3Storage.php:373 | `count($expired) > $batchsize` breaks only after one key more than the batch size | batch size 1, two expired pastes: both are returned | stop at the batch size, as the filesystem store does with `>=` and as the base class documents ("up to batch size") | not executed | S3Store.ScanOvershoots | S3Store.ExpiredIds |
| lib/Data/S3Storage.php:369 | the object key, prefix included, is returned where a paste id is expected | prefix `p`, expired paste `a`: `p/a` is returned, and deleting it looks for `p/p/a` | return the id, the key without the base | not executed | S3Store.ExpiredKeyMissesPaste | S3Store.IdsReachKeys |
| lib/Data/S3Storage.php:191-193 | pieces 3 and 2 of the whole key are read as the comment and parent ids | prefix `p`, key `p/a/discussion/b/c`: `id` is `b` and `parentid` is `discussion` | take the ids from the key after the discussion prefix | not executed | S3Store.CommentIdsPrefixed | S3Store.CommentIdsOfKey |
