# Repository ingestion core, modelled in Dafny

This project models the ingestion core of a small service that snapshots a
hosted source repository into a document store (`main.py`). One sync takes a
repository locator (`https://github.com/owner/name` or `owner/name`), an
optional branch and an optional token, and then:

1. parses the locator into an owner and a name, or fails with status 400;
2. asks the hosting service for the repository metadata, and fails with that
   response's status and text unless it is 200;
3. picks the effective branch: the requested one if non-empty, else the
   reported `default_branch`, else `"main"`;
4. asks for the recursive tree at that branch, and fails the same way unless
   the answer is 200;
5. writes one `repo` record;
6. walks the tree in order. Entries that are not blobs are passed over. For
   each blob it fetches the contents at the effective branch. A failed fetch
   skips the file silently. A successful one writes a `filedocument` record
   (contents as received, encoding as reported or `"utf-8"`, language from the
   extension table) and counts it;
7. writes one `repo_sync_log` record with the count, and returns the count.

Files:

- `wrappers.dfy`: `Option` and `Result`.
- `text.dfy`: the Python string operations the parser and the classifier use,
  with Python's semantics. `Split` is `str.split(sep)` (leftmost,
  non-overlapping cuts), `RStrip` is `rstrip(c)` (all trailing copies go),
  `Lower` is ASCII lower-casing.
- `records.dfy`: the values: request, responses, tree entries, documents,
  writes, errors.
- `locator.dfy`: `parse_repo_url`.
- `language.dfy`: the `EXT_LANG` table and `detect_language`, as a
  first-match search over the ordered table.
- `headers.dfy`: `github_headers`.
- `database.dfy`: the document store as a class whose sequence of writes
  grows by one per `create_document` call.
- `ingest.dfy`: `sync_repository`. `Sync` is a function that gives the
  result, the writes and the requests of one sync. `SyncRepository` is the
  imperative version, proved to append exactly `Sync`'s writes to the store.
  Its per-entry loop, with the source's `continue` and counter, is the
  method `StoreFiles`, which it calls. The lemmas
  state the abort/skip policy, the write order, the count and the fields of
  every record.

The remote service is an input. A `Remote` value holds the metadata
response, the tree response and a map from path to contents response. A path
missing from that map answers 404. The requests a sync sends (endpoint and
headers) are returned alongside the result, so that "the tree call and every
contents call use the effective branch" and "every call carries the same
headers" can be stated. The process environment's `GITHUB_TOKEN` is a
parameter, `env`.

Behaviour of the code that the model keeps, and that a reader might not
expect:

- The URL form is recognised only by the prefix `http`. Trailing slashes are
  stripped first, and then only the text after the LAST `github.com/` is kept.
- `https://github.com` (nothing after the host) is accepted, with owner
  `https:` and name `""` (`Locator.ParseSchemeOnly`). Once its trailing
  slashes are stripped it holds no `github.com/`, so the whole URL is split
  on `/`, giving `https:`, `""` and `github.com`.
- Further path after the name is ignored (`Locator.ParseUrlWithPath`), unless
  `github.com/` occurs again in it: the cut then moves to that later marker.
- An owner ending in `github.com` makes the URL form fail while the bare
  form succeeds (`Locator.ParseUrlOwnerEndingInMarker`).
- An empty name does the same: bare `o/` yields `(o, "")`, but
  `https://github.com/o/` loses its last slash to the stripping and is
  rejected (`Locator.ParseUrlEmptyNameRejected`).
- Only `github.com/` is recognised as a host marker. A URL on any other host
  that has no `github.com/` later in it is split from its start, so its
  "owner" is the scheme.
- A re-sync appends a second `repo` record with the same `full_name`. Nothing
  is overwritten or merged (`Ingest.ResyncKeepsKey`, `Database.DocumentStore`).

## Model

| member | source | states |
|---|---|---|
| `Text.Split` | main.py:95-97 | Python's `str.split(sep)` never returns an empty list: there is always at least one piece |
| `Text.JoinSplit` | main.py:95-97 | Python `split` loses nothing: joining the pieces with the separator gives back the original string |
| `Text.SplitCharPieces` | main.py:95-97 | the pieces of a split on `/` never contain `/` |
| `Text.SplitAtFirst` | main.py:95 | with no earlier occurrence, `split` cuts at the first occurrence of the separator and splits the rest |
| `Text.RStrip` | main.py:95 | `rstrip("/")` leaves a prefix that does not end in `/`, and everything it removed is `/` |
| `Text.RStripPadded` | main.py:95 | stripping undoes any number of trailing slashes added to a string that does not end in one |
| `Text.Lower` | main.py:83 | lower-casing keeps the length, leaves no upper-case ASCII letter, maps each of `A`-`Z` to its lower-case letter and leaves every other character as it is |
| `Text.LowerIdempotent` | main.py:83 | lower-casing twice is lower-casing once |
| `Locator.Segments` | main.py:94-97 | the segments the parser looks at are at least one and none contains `/` |
| `Locator.ParseRepoUrl` | main.py:92-101 | owner and name never contain `/`; every failure is status 400 with the fixed detail text |
| `Locator.ParseRejectsSlashless` | main.py:94-99 | a locator without any `/` is rejected with 400, in the URL form and in the bare form |
| `Locator.ParseBareAcceptsIffSlash` | main.py:96-99 | a locator not starting with `http` is accepted exactly when it contains `/` |
| `Locator.ParseBareSegments` | main.py:96-101 | a locator not starting with `http` yields its first two `/`-separated segments, whatever follows them |
| `Locator.ParseUrlMatchesBare` | main.py:94-101 | `https://github.com/o/n` with any number of trailing slashes parses to the same `(o, n)` as bare `o/n` (slash-free `o` not ending in `github.com`, non-empty slash-free `n`) |
| `Locator.ParseUrlWithPath` | main.py:94-101 | `https://github.com/o/n/...` with any further path (a tree or file link) and any number of trailing slashes yields `(o, n)`, when `o` and `n` are slash-free and no `github.com/` occurs after the host |
| `Locator.ParseSchemeOnly` | main.py:94-101 | a URL with nothing after the host, such as `https://github.com`, is accepted with the scheme as owner and an empty name |
| `Locator.ParseUrlEmptyNameRejected` | main.py:94-101 | bare `o/` yields owner `o` and an empty name, while `https://github.com/o/` is rejected with 400, because `rstrip("/")` removes its last slash |
| `Locator.ParseUrlOwnerEndingInMarker` | main.py:95 | because the text after the last `github.com/` is kept, an owner ending in `github.com` leaves one segment and the URL is rejected with 400 |
| `Language.ExtLangTable` | main.py:65-78 | the extension table has twelve entries, each a dot and at least one more character, no two alike. `.js`/`.jsx` are javascript, `.ts`/`.tsx` typescript and `.yml`/`.yaml` yaml |
| `Language.FirstMatch` | main.py:82-85 | the index found is the first, in table order, whose extension ends the path; none is found exactly when no extension does |
| `Language.DetectLanguage` | main.py:65-85 | the tag is that of the first table extension the lower-cased path ends with; None exactly when no listed extension matches |
| `Language.DetectIgnoresCase` | main.py:83 | lower-casing the path does not change its tag |
| `Language.Mismatch` | main.py:83 | a proof helper about `endswith`, used by the example lemmas: a path does not end with an extension it differs from at some position counted from the end |
| `Language.DetectTsx` | main.py:65-85 | `src/App.tsx` is typescript |
| `Language.DetectMarkdown` | main.py:65-85 | `README.md` is markdown |
| `Language.DetectMakefile` | main.py:65-85 | `Makefile` has no tag |
| `Headers.GithubHeaders` | main.py:104-109 | Accept is always `application/vnd.github+json`. Authorization is `Bearer` plus the request token if it is non-empty, else plus the environment token if that is non-empty. There is no Authorization key when neither is non-empty, and there are no other keys |
| `Ingest.EffectiveBranch` | main.py:122 | the branch read is the requested one when it is non-empty, else the reported `default_branch`, else `"main"` |
| `Ingest.StoredEncoding` | main.py:174 | the stored encoding is the reported one when a non-empty one is reported, and `"utf-8"` otherwise, so it is never empty |
| `Ingest.FileRecord` | main.py:167-176 | the record carries `owner/name` and type `blob`. For a blob fetched with 200 it holds the entry's path, sha and size, the contents as received, the reported encoding or `utf-8`, and `detect_language(path)` |
| `Ingest.Process` | main.py:146-178 | an entry is passed over exactly when it is not a blob. It is skipped, with the response status, exactly when it is a blob whose fetch does not answer 200. Otherwise it is saved as the record of that fetched blob |
| `Database.DocumentStore.CreateDocument` | main.py:143 | a `create_document` call appends one write and changes nothing already stored |
| `Ingest.FileWrites` | main.py:146-178 | a tree writes at most one file record per entry. Each record's fields are stated by `Ingest.FileWriteFields`, and its position in tree order by `Ingest.EntryWritesInPlace` |
| `Ingest.ContentRequests` | main.py:146-155 | a tree sends at most one contents request per entry. Their exact shape, one per blob in tree order, is stated by `Ingest.ContentRequestsShape` |
| `Ingest.FileWritesAppend` | main.py:146-178 | the file records written for a tree are those of its first part followed by those of the rest |
| `Ingest.ContentRequestsAppend` | main.py:146-155 | the contents requests for a tree are those of its first part followed by those of the rest |
| `Ingest.EntryWritesInPlace` | main.py:146-178 | a non-blob entry or a failed fetch writes nothing; a fetched blob writes exactly its own record, in tree position |
| `Ingest.SavedPlusFailedIsBlobs` | main.py:145-178 | saved files plus failed fetches equal the number of blob entries, so the count never exceeds the blobs |
| `Ingest.FileWriteFields` | main.py:158-177 | every file record goes to `filedocument` and records one fetched blob: `repo_full_name = owner/name`, type `blob`, its path, sha and size, contents exactly as received, the reported encoding or `utf-8`, and `detect_language(path)` |
| `Ingest.ContentRequestsShape` | main.py:146-155 | one contents request per blob, in tree order, for that blob's path at the effective branch with the same headers |
| `Ingest.RepoRecord` | main.py:134-143 | the repository record holds the owner and the name, `full_name` = `owner/name`, the locator as given as `url`, the effective branch as `default_branch`, and the metadata's description |
| `Ingest.Sync` | main.py:112-183 | a sync succeeds exactly when the locator parses and the metadata and tree responses are 200. It fails exactly when it writes nothing, and a successful one writes its count plus two records |
| `Ingest.SyncFailsWithoutWriting` | main.py:113-157 | a sync succeeds exactly when the locator parses and the metadata and tree responses are 200, whatever the contents responses answer. It fails exactly when it writes nothing. A parse failure gives 400 with no request sent. A non-200 metadata or tree response gives that response's status and text |
| `Ingest.FetchFailuresNeverSurface` | main.py:152-157 | two remotes that agree on the metadata and tree responses give syncs that both succeed or both fail, with the same error: a failed contents fetch never fails the sync |
| `Ingest.SyncWritesInOrder` | main.py:133-183 | on success, exactly one `repo` record comes first, then the file records in tree order, then exactly one `repo_sync_log` record with the returned count. The count equals the number of file records, and adding the failed fetches gives the number of blobs |
| `Ingest.SyncRequests` | main.py:118-155 | every request carries `github_headers(token)`. The metadata call comes first. The tree call uses the effective branch. One contents call per blob follows, in tree order, at the effective branch. After a non-200 metadata response only that one request has been sent, and after a non-200 tree response only the two |
| `Ingest.ThreeBlobsOneFailed` | main.py:145-183 | three blobs of which any one fails (first, second or third): one `repo` record, two file records and a sync log of 2, and 2 is returned |
| `Ingest.ResyncKeepsKey` | main.py:115-143 | two successful syncs of one locator write repository records with the same `full_name`, the one returned |
| `Ingest.StoreFiles` | main.py:145-178 | the per-entry loop, with its `continue` on a failed fetch and its counter, appends exactly the file records of the tree to the store. It returns their number and sends exactly the tree's contents requests |
| `Ingest.SyncRepository` | main.py:112-183 | the imperative sync returns `Sync`'s result and requests and appends exactly `Sync`'s writes to the store; a failed sync leaves the store unchanged |

## Left out

- The web application shell (app creation, CORS, the `/` route, the uvicorn launch, main.py:11-30 and 209-212): transport only.
- `test_database` (main.py:33-61): a health report over environment variables and a live database handle.
- `list_files` and `list_repos` (main.py:186-206): thin reads through the `database` module, which is not part of this model. The `limit` bound is enforced there. The id and timestamp stringification is cosmetic.
- The HTTP calls themselves, JSON decoding and URL formatting: the responses are inputs. The remote's answers do not depend on the headers or the branch sent.
- The `schemas` and `database` modules are not part of this model. Their records are plain datatypes. `create_document` is an append to a write log. A store failure (an exception) is not modelled.
- Python's Unicode `str.lower`: lower-casing is ASCII only.
- `os.getenv("GITHUB_TOKEN")` is the parameter `env`.
- Exceptions raised inside a sync other than the two status checks and the parse failure (undecodable JSON, a tree node without a `path`) are not modelled: a tree entry always has a path.
- `Ingest.EffectiveBranch`: a `default_branch` key present with a JSON `null` value is treated like a missing key (`"main"`), whereas the code would use `None`.
- The constant `"status": "ok"` field of the sync response is not modelled.
- Concurrent syncs of the same repository: the model is sequential.
