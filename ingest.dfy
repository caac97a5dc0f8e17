/**
 * One sync of a repository: resolve the locator, fetch the metadata and the
 * recursive tree, store the repository record, store one file record per blob
 * whose contents could be fetched, and close with a sync-log record.
 *
 * The remote service's answers are inputs (a `Remote`); the requests the sync
 * makes are returned so that what was asked for, with which branch and which
 * headers, can be stated.
 */
module Ingest {
  import opened Wrappers
  import opened Records
  import opened Locator
  import opened Language
  import opened Headers
  import opened Database

  /** The branch a sync reads: the requested one if non-empty, else the reported default, else "main". */
  function EffectiveBranch(requested: Option<string>, repo: RepoResponse): (b: string)
    ensures requested.Some? && requested.value != "" ==> b == requested.value
    ensures (requested.None? || requested.value == "") && repo.defaultBranch.Some? ==> b == repo.defaultBranch.value
    ensures (requested.None? || requested.value == "") && repo.defaultBranch.None? ==> b == "main"
  {
    if requested.Some? && requested.value != "" then requested.value else repo.defaultBranch.GetOr("main")
  }

  /** The remote's answer for the contents of `path`; a path it does not know answers 404. */
  function ContentFor(remote: Remote, path: string): ContentResponse {
    if path in remote.contents then remote.contents[path] else ContentResponse(404, None, None)
  }

  /** The encoding stored with a file: the reported one, or "utf-8" when none is reported. */
  function StoredEncoding(reported: Option<string>): (e: string)
    ensures e != ""
    ensures reported.Some? && reported.value != "" ==> e == reported.value
    ensures reported.None? || reported.value == "" ==> e == "utf-8"
  {
    if reported.Some? && reported.value != "" then reported.value else "utf-8"
  }

  predicate IsBlob(entry: TreeEntry) {
    entry.kind == Some("blob")
  }

  /** The file record built from a tree entry and its fetched contents. */
  function FileRecord(fullName: string, entry: TreeEntry, blob: ContentResponse): (file: FileDocument)
    ensures file.repoFullName == fullName && file.kind == "blob" && file.encoding != ""
    ensures IsBlob(entry) && blob.status == 200 ==> FetchedAs(file, entry, blob)
  {
    FileDocument(fullName, entry.path, entry.sha, entry.size, "blob", blob.content,
                 StoredEncoding(blob.encoding), DetectLanguage(entry.path))
  }

  /** What becomes of one tree entry: not a file, a file whose fetch failed, or a stored file. */
  datatype EntryOutcome = NotBlob | Skipped(status: int) | Saved(doc: FileDocument)

  function Process(fullName: string, entry: TreeEntry, remote: Remote): (outcome: EntryOutcome)
    ensures outcome.NotBlob? <==> !IsBlob(entry)
    ensures outcome.Skipped? <==> IsBlob(entry) && ContentFor(remote, entry.path).status != 200
    ensures outcome.Skipped? ==> outcome.status == ContentFor(remote, entry.path).status
    ensures outcome.Saved? ==>
      outcome.doc.repoFullName == fullName && FetchedAs(outcome.doc, entry, ContentFor(remote, entry.path))
  {
    if !IsBlob(entry) then NotBlob
    else
      var blob := ContentFor(remote, entry.path);
      if blob.status != 200 then Skipped(blob.status) else Saved(FileRecord(fullName, entry, blob))
  }

  function OutcomeWrites(outcome: EntryOutcome): seq<Write> {
    if outcome.Saved? then [Write("filedocument", FileDoc(outcome.doc))] else []
  }

  /** The file records a sync writes for `entries`, in tree order. */
  function FileWrites(fullName: string, entries: seq<TreeEntry>, remote: Remote): (ws: seq<Write>)
    ensures |ws| <= |entries|
  {
    if entries == [] then []
    else OutcomeWrites(Process(fullName, entries[0], remote)) + FileWrites(fullName, entries[1..], remote)
  }

  /** The paths of the blob entries, in tree order. */
  function BlobPaths(entries: seq<TreeEntry>): seq<string> {
    if entries == [] then []
    else (if IsBlob(entries[0]) then [entries[0].path] else []) + BlobPaths(entries[1..])
  }

  /** How many blob entries' contents could not be fetched. */
  function FailedFetches(fullName: string, entries: seq<TreeEntry>, remote: Remote): nat {
    if entries == [] then 0
    else (if Process(fullName, entries[0], remote).Skipped? then 1 else 0)
         + FailedFetches(fullName, entries[1..], remote)
  }

  /** The contents requests a sync sends for `entries`: one per blob, in tree order. */
  function ContentRequests(repo: RepoRef, branch: string, headers: map<string, string>,
                           entries: seq<TreeEntry>): (rs: seq<Request>)
    ensures |rs| <= |entries|
  {
    if entries == [] then []
    else (if IsBlob(entries[0]) then [Request(ContentsEndpoint(repo.owner, repo.name, entries[0].path, branch), headers)]
          else [])
         + ContentRequests(repo, branch, headers, entries[1..])
  }

  /** The repository record a sync writes first. */
  function RepoRecord(repo: RepoRef, url: string, branch: string, meta: RepoResponse): (r: Document)
    ensures r.RepoDoc? && r.repo.owner == repo.owner && r.repo.name == repo.name
    ensures r.repo.fullName == repo.owner + "/" + repo.name
    ensures r.repo.url == url && r.repo.defaultBranch == branch && r.repo.description == meta.description
  {
    RepoDoc(Repo(repo.owner, repo.name, repo.FullName(), url, branch, meta.description))
  }

  /** Everything one sync does: what it returns, what it writes and what it requests. */
  datatype SyncRun = SyncRun(result: SyncResult, writes: seq<Write>, sent: seq<Request>)

  /** The specification of a sync, given the ambient token `env` and the remote's answers. */
  function Sync(payload: SyncRequest, env: Option<string>, remote: Remote): (run: SyncRun)
    ensures run.result.Synced? <==>
      ParseRepoUrl(payload.repoUrl).Success? && remote.repo.status == 200 && remote.tree.status == 200
    ensures run.result.Failed? <==> run.writes == []
    ensures run.result.Synced? ==> |run.writes| == run.result.saved + 2
  {
    match ParseRepoUrl(payload.repoUrl)
    case Failure(e) => SyncRun(Failed(e), [], [])
    case Success(repo) =>
      var headers := GithubHeaders(payload.token, env);
      var metaCall := [Request(RepoEndpoint(repo.owner, repo.name), headers)];
      if remote.repo.status != 200 then
        SyncRun(Failed(HttpError(remote.repo.status, remote.repo.text)), [], metaCall)
      else
        var branch := EffectiveBranch(payload.branch, remote.repo);
        var listCalls := metaCall + [Request(TreeEndpoint(repo.owner, repo.name, branch), headers)];
        if remote.tree.status != 200 then
          SyncRun(Failed(HttpError(remote.tree.status, remote.tree.text)), [], listCalls)
        else
          var files := FileWrites(repo.FullName(), remote.tree.tree, remote);
          SyncRun(Synced(|files|, repo.FullName()),
                  [Write("repo", RepoRecord(repo, payload.repoUrl, branch, remote.repo))]
                  + files
                  + [Write("repo_sync_log", SyncLog(repo.FullName(), |files|))],
                  listCalls + ContentRequests(repo, branch, headers, remote.tree.tree))
  }

  /** Processing entries in two runs writes what processing them in one run does. */
  lemma {:induction false} FileWritesAppend(fullName: string, a: seq<TreeEntry>, b: seq<TreeEntry>, remote: Remote)
    ensures FileWrites(fullName, a + b, remote) == FileWrites(fullName, a, remote) + FileWrites(fullName, b, remote)
  {
    if a != [] {
      var head := OutcomeWrites(Process(fullName, a[0], remote));
      assert (a + b)[0] == a[0] && (a + b)[1..] == a[1..] + b;
      assert FileWrites(fullName, a + b, remote) == head + FileWrites(fullName, a[1..] + b, remote);
      FileWritesAppend(fullName, a[1..], b, remote);
      assert FileWrites(fullName, a, remote) == head + FileWrites(fullName, a[1..], remote);
    } else {
      assert a + b == b;
    }
  }

  /** Requesting contents for entries in two runs sends what one run does. */
  lemma {:induction false} ContentRequestsAppend(repo: RepoRef, branch: string, headers: map<string, string>,
                                                 a: seq<TreeEntry>, b: seq<TreeEntry>)
    ensures ContentRequests(repo, branch, headers, a + b)
         == ContentRequests(repo, branch, headers, a) + ContentRequests(repo, branch, headers, b)
  {
    if a != [] {
      var head := ContentRequests(repo, branch, headers, [a[0]]);
      assert [a[0]][1..] == [];
      assert (a + b)[0] == a[0] && (a + b)[1..] == a[1..] + b;
      assert ContentRequests(repo, branch, headers, a + b) == head + ContentRequests(repo, branch, headers, a[1..] + b);
      ContentRequestsAppend(repo, branch, headers, a[1..], b);
      assert ContentRequests(repo, branch, headers, a) == head + ContentRequests(repo, branch, headers, a[1..]);
    } else {
      assert a + b == b;
    }
  }

  /**
   * An entry that is not a blob, or whose contents fetch fails, writes nothing;
   * a fetched blob writes exactly its own record, between those of the entries
   * before it and those after it.
   */
  lemma {:induction false} EntryWritesInPlace(fullName: string, a: seq<TreeEntry>, e: TreeEntry, b: seq<TreeEntry>, remote: Remote)
    ensures !Process(fullName, e, remote).Saved? ==>
      FileWrites(fullName, a + [e] + b, remote) == FileWrites(fullName, a + b, remote)
    ensures Process(fullName, e, remote).Saved? ==>
      FileWrites(fullName, a + [e] + b, remote)
        == FileWrites(fullName, a, remote) + [Write("filedocument", FileDoc(Process(fullName, e, remote).doc))]
           + FileWrites(fullName, b, remote)
  {
    var own := OutcomeWrites(Process(fullName, e, remote));
    var eb := [e] + b;
    assert eb[0] == e && eb[1..] == b;
    assert FileWrites(fullName, eb, remote) == own + FileWrites(fullName, b, remote);
    assert a + [e] + b == a + eb;
    FileWritesAppend(fullName, a, eb, remote);
    FileWritesAppend(fullName, a, b, remote);
    if !Process(fullName, e, remote).Saved? {
      assert own == [];
    }
  }

  /**
   * Every blob is either stored or counted as a failed fetch: the saved count
   * plus the failed fetches is the number of blobs, so it never exceeds it.
   */
  lemma {:induction false} SavedPlusFailedIsBlobs(fullName: string, entries: seq<TreeEntry>, remote: Remote)
    ensures |FileWrites(fullName, entries, remote)| + FailedFetches(fullName, entries, remote) == |BlobPaths(entries)|
    ensures |FileWrites(fullName, entries, remote)| <= |BlobPaths(entries)|
  {
    if entries != [] {
      SavedPlusFailedIsBlobs(fullName, entries[1..], remote);
    }
  }

  /**
   * Every file write goes to "filedocument" and records one fetched blob of the
   * tree: its path, sha and size, the contents exactly as received, the
   * reported encoding or "utf-8", and the language of its path.
   */
  lemma {:induction false} FileWriteFields(fullName: string, entries: seq<TreeEntry>, remote: Remote)
    ensures forall k :: 0 <= k < |FileWrites(fullName, entries, remote)| ==>
      RecordsFetchedBlob(FileWrites(fullName, entries, remote)[k], fullName, entries, remote)
  {
    if entries != [] {
      FileWriteFields(fullName, entries[1..], remote);
      var head: seq<Write> := OutcomeWrites(Process(fullName, entries[0], remote));
      var tail: seq<Write> := FileWrites(fullName, entries[1..], remote);
      var ws: seq<Write> := FileWrites(fullName, entries, remote);
      assert ws == head + tail;
      forall k | 0 <= k < |ws| ensures RecordsFetchedBlob(ws[k], fullName, entries, remote) {
        if k < |head| {
          assert FetchedAs(ws[k].doc.file, entries[0], ContentFor(remote, entries[0].path));
        } else {
          var w := tail[k - |head|];
          assert RecordsFetchedBlob(w, fullName, entries[1..], remote);
          var i :| 0 <= i < |entries[1..]| && FetchedAs(w.doc.file, entries[1..][i], ContentFor(remote, entries[1..][i].path));
          assert entries[1..][i] == entries[i + 1];
          assert ws[k] == w;
        }
      }
    }
  }

  /** `w` is the "filedocument" write of one fetched blob among `entries`. */
  predicate RecordsFetchedBlob(w: Write, fullName: string, entries: seq<TreeEntry>, remote: Remote) {
    && w.collection == "filedocument" && w.doc.FileDoc?
    && w.doc.file.repoFullName == fullName && w.doc.file.kind == "blob"
    && exists i :: 0 <= i < |entries| && FetchedAs(w.doc.file, entries[i], ContentFor(remote, entries[i].path))
  }

  /** `file` is the record of `entry`, a blob whose contents fetch answered `blob` with 200. */
  predicate FetchedAs(file: FileDocument, entry: TreeEntry, blob: ContentResponse) {
    && IsBlob(entry) && blob.status == 200
    && file.path == entry.path && file.sha == entry.sha && file.size == entry.size
    && file.content == blob.content
    && file.encoding == (if blob.encoding.Some? && blob.encoding.value != "" then blob.encoding.value else "utf-8")
    && file.language == DetectLanguage(entry.path)
  }

  /** One contents request per blob, in tree order, each at `branch` and with `headers`. */
  lemma {:induction false} ContentRequestsShape(repo: RepoRef, branch: string, headers: map<string, string>,
                                                entries: seq<TreeEntry>)
    ensures |ContentRequests(repo, branch, headers, entries)| == |BlobPaths(entries)|
    ensures forall k :: 0 <= k < |BlobPaths(entries)| ==>
      ContentRequests(repo, branch, headers, entries)[k]
        == Request(ContentsEndpoint(repo.owner, repo.name, BlobPaths(entries)[k], branch), headers)
  {
    if entries != [] {
      var rest := entries[1..];
      ContentRequestsShape(repo, branch, headers, rest);
      var requests := ContentRequests(repo, branch, headers, entries);
      var paths := BlobPaths(entries);
      var skip := if IsBlob(entries[0]) then 1 else 0;
      forall k | 0 <= k < |paths|
        ensures requests[k] == Request(ContentsEndpoint(repo.owner, repo.name, paths[k], branch), headers)
      {
        if k >= skip {
          assert requests[k] == ContentRequests(repo, branch, headers, rest)[k - skip];
          assert paths[k] == BlobPaths(rest)[k - skip];
        }
      }
    }
  }

  /**
   * A sync fails exactly when it writes nothing: a bad locator fails with 400
   * before any request, and a metadata or tree response other than 200 fails
   * with that response's own status and text.
   */
  lemma SyncFailsWithoutWriting(payload: SyncRequest, env: Option<string>, remote: Remote)
    ensures var run := Sync(payload, env, remote); run.result.Failed? <==> run.writes == []
    ensures Sync(payload, env, remote).result.Synced? <==>
      ParseRepoUrl(payload.repoUrl).Success? && remote.repo.status == 200 && remote.tree.status == 200
    ensures ParseRepoUrl(payload.repoUrl).Failure? ==>
      Sync(payload, env, remote) == SyncRun(Failed(HttpError(400, "Invalid GitHub repository URL")), [], [])
    ensures ParseRepoUrl(payload.repoUrl).Success? && remote.repo.status != 200 ==>
      Sync(payload, env, remote).result == Failed(HttpError(remote.repo.status, remote.repo.text))
    ensures ParseRepoUrl(payload.repoUrl).Success? && remote.repo.status == 200 && remote.tree.status != 200 ==>
      Sync(payload, env, remote).result == Failed(HttpError(remote.tree.status, remote.tree.text))
  {
  }

  /**
   * A failed contents fetch is never surfaced: two remotes that agree on the
   * metadata and tree responses give syncs that both succeed or both fail,
   * whatever their contents responses answer.
   */
  lemma FetchFailuresNeverSurface(payload: SyncRequest, env: Option<string>, r1: Remote, r2: Remote)
    requires r1.repo == r2.repo && r1.tree == r2.tree
    ensures Sync(payload, env, r1).result.Synced? <==> Sync(payload, env, r2).result.Synced?
    ensures Sync(payload, env, r1).result.Failed? ==> Sync(payload, env, r1).result == Sync(payload, env, r2).result
  {
  }

  /**
   * A successful sync writes exactly one repository record, then the file
   * records in tree order, then exactly one sync-log record carrying the same
   * count it returns; the count is the number of file records and at most the
   * number of blobs.
   */
  lemma SyncWritesInOrder(payload: SyncRequest, env: Option<string>, remote: Remote)
    requires Sync(payload, env, remote).result.Synced?
    ensures ParseRepoUrl(payload.repoUrl).Success? && remote.repo.status == 200 && remote.tree.status == 200
    ensures var run := Sync(payload, env, remote);
      var repo := ParseRepoUrl(payload.repoUrl).value;
      var w := run.writes;
      var saved := run.result.saved;
      && run.result.repo == repo.FullName()
      && |w| == saved + 2
      && w[0] == Write("repo", RepoRecord(repo, payload.repoUrl, EffectiveBranch(payload.branch, remote.repo), remote.repo))
      && w[1..|w| - 1] == FileWrites(repo.FullName(), remote.tree.tree, remote)
      && (forall k :: 0 < k < |w| - 1 ==> w[k].collection == "filedocument")
      && w[|w| - 1] == Write("repo_sync_log", SyncLog(repo.FullName(), saved))
      && saved + FailedFetches(repo.FullName(), remote.tree.tree, remote) == |BlobPaths(remote.tree.tree)|
  {
    var repo := ParseRepoUrl(payload.repoUrl).value;
    var files := FileWrites(repo.FullName(), remote.tree.tree, remote);
    var w := Sync(payload, env, remote).writes;
    FileWriteFields(repo.FullName(), remote.tree.tree, remote);
    SavedPlusFailedIsBlobs(repo.FullName(), remote.tree.tree, remote);
    assert w[1..|w| - 1] == files;
    forall k | 0 < k < |w| - 1 ensures w[k].collection == "filedocument" {
      assert w[k] == files[k - 1];
      assert RecordsFetchedBlob(files[k - 1], repo.FullName(), remote.tree.tree, remote);
    }
  }

  /**
   * Every request carries the same headers; the tree request and every
   * contents request use the effective branch; one contents request goes out
   * per blob, in tree order. A failed metadata request is the last request
   * sent, and so is a failed tree request.
   */
  lemma SyncRequests(payload: SyncRequest, env: Option<string>, remote: Remote)
    ensures var sent := Sync(payload, env, remote).sent;
      forall k :: 0 <= k < |sent| ==> sent[k].headers == GithubHeaders(payload.token, env)
    ensures ParseRepoUrl(payload.repoUrl).Success? && remote.repo.status == 200 ==>
      var sent := Sync(payload, env, remote).sent;
      var repo := ParseRepoUrl(payload.repoUrl).value;
      var branch := EffectiveBranch(payload.branch, remote.repo);
      && |sent| >= 2
      && sent[0].endpoint == RepoEndpoint(repo.owner, repo.name)
      && sent[1].endpoint == TreeEndpoint(repo.owner, repo.name, branch)
      && (remote.tree.status == 200 ==>
            && |sent| == 2 + |BlobPaths(remote.tree.tree)|
            && forall k :: 2 <= k < |sent| ==>
                 sent[k].endpoint == ContentsEndpoint(repo.owner, repo.name, BlobPaths(remote.tree.tree)[k - 2], branch))
    ensures ParseRepoUrl(payload.repoUrl).Success? && remote.repo.status != 200 ==>
      |Sync(payload, env, remote).sent| == 1
    ensures ParseRepoUrl(payload.repoUrl).Success? && remote.repo.status == 200 && remote.tree.status != 200 ==>
      |Sync(payload, env, remote).sent| == 2
  {
    var run := Sync(payload, env, remote);
    var headers := GithubHeaders(payload.token, env);
    if ParseRepoUrl(payload.repoUrl).Success? && remote.repo.status == 200 && remote.tree.status == 200 {
      var repo := ParseRepoUrl(payload.repoUrl).value;
      var branch := EffectiveBranch(payload.branch, remote.repo);
      var contents := ContentRequests(repo, branch, headers, remote.tree.tree);
      ContentRequestsShape(repo, branch, headers, remote.tree.tree);
      forall k | 2 <= k < |run.sent|
        ensures run.sent[k] == Request(ContentsEndpoint(repo.owner, repo.name, BlobPaths(remote.tree.tree)[k - 2], branch), headers)
      {
        assert run.sent[k] == contents[k - 2];
      }
    }
  }

  /** The file writes of a three-entry tree are those of each entry, in order. */
  lemma {:induction false} FileWritesOfThree(fullName: string, tree: seq<TreeEntry>, remote: Remote)
    requires |tree| == 3
    ensures FileWrites(fullName, tree, remote)
         == OutcomeWrites(Process(fullName, tree[0], remote))
            + OutcomeWrites(Process(fullName, tree[1], remote))
            + OutcomeWrites(Process(fullName, tree[2], remote))
  {
    assert tree[1..][1..][1..] == [];
    assert FileWrites(fullName, tree[1..][1..], remote) == OutcomeWrites(Process(fullName, tree[2], remote));
  }

  /**
   * Three blobs of which any one cannot be fetched: one repository record, two
   * file records and a sync log of 2, and 2 is returned.
   */
  lemma ThreeBlobsOneFailed(payload: SyncRequest, env: Option<string>, remote: Remote, failing: nat)
    requires ParseRepoUrl(payload.repoUrl).Success? && remote.repo.status == 200 && remote.tree.status == 200
    requires |remote.tree.tree| == 3 && forall i :: 0 <= i < 3 ==> IsBlob(remote.tree.tree[i])
    requires failing < 3
    requires forall i :: 0 <= i < 3 ==> (ContentFor(remote, remote.tree.tree[i].path).status == 200 <==> i != failing)
    ensures var run := Sync(payload, env, remote);
      && run.result.Synced? && run.result.saved == 2 && |run.writes| == 4
      && run.writes[0].collection == "repo"
      && run.writes[1].collection == "filedocument" && run.writes[2].collection == "filedocument"
      && run.writes[3] == Write("repo_sync_log", SyncLog(run.result.repo, 2))
  {
    var tree := remote.tree.tree;
    var fullName := ParseRepoUrl(payload.repoUrl).value.FullName();
    FileWritesOfThree(fullName, tree, remote);
    forall i | 0 <= i < 3
      ensures |OutcomeWrites(Process(fullName, tree[i], remote))| == (if i == failing then 0 else 1)
    {
    }
    assert |FileWrites(fullName, tree, remote)| == 2;
    SyncWritesInOrder(payload, env, remote);
  }

  /**
   * The repository record's key depends on the locator alone: any two syncs of
   * the same locator that succeed write records with the same `full_name`. The
   * store keeps both (writes are appended, never merged).
   */
  lemma ResyncKeepsKey(p1: SyncRequest, p2: SyncRequest, env1: Option<string>, env2: Option<string>,
                       r1: Remote, r2: Remote)
    requires p1.repoUrl == p2.repoUrl
    requires Sync(p1, env1, r1).result.Synced? && Sync(p2, env2, r2).result.Synced?
    ensures Sync(p1, env1, r1).writes[0].doc.repo.fullName == Sync(p2, env2, r2).writes[0].doc.repo.fullName
    ensures Sync(p1, env1, r1).writes[0].doc.repo.fullName == Sync(p1, env1, r1).result.repo
  {
    SyncWritesInOrder(p1, env1, r1);
    SyncWritesInOrder(p2, env2, r2);
  }

  /** The run of a sync whose locator parses and whose metadata and tree requests succeed. */
  lemma SyncSucceeds(payload: SyncRequest, env: Option<string>, remote: Remote, repo: RepoRef)
    requires ParseRepoUrl(payload.repoUrl) == Success(repo)
    requires remote.repo.status == 200 && remote.tree.status == 200
    ensures var headers := GithubHeaders(payload.token, env);
      var branch := EffectiveBranch(payload.branch, remote.repo);
      var files := FileWrites(repo.FullName(), remote.tree.tree, remote);
      Sync(payload, env, remote)
        == SyncRun(Synced(|files|, repo.FullName()),
                   [Write("repo", RepoRecord(repo, payload.repoUrl, branch, remote.repo))]
                   + files + [Write("repo_sync_log", SyncLog(repo.FullName(), |files|))],
                   [Request(RepoEndpoint(repo.owner, repo.name), headers),
                    Request(TreeEndpoint(repo.owner, repo.name, branch), headers)]
                   + ContentRequests(repo, branch, headers, remote.tree.tree))
  {
  }

  /**
   * Walks the tree in order: requests the contents of every blob, skips one
   * whose fetch fails, and stores a file record for every other. Returns the
   * number stored and the contents requests sent.
   */
  method StoreFiles(store: DocumentStore, repo: RepoRef, branch: string, headers: map<string, string>,
                    tree: seq<TreeEntry>, remote: Remote)
    returns (saved: nat, sent: seq<Request>)
    modifies store
    ensures store.writes == old(store.writes) + FileWrites(repo.FullName(), tree, remote)
    ensures saved == |FileWrites(repo.FullName(), tree, remote)|
    ensures sent == ContentRequests(repo, branch, headers, tree)
  {
    var fullName := repo.FullName();
    saved := 0;
    sent := [];
    for i := 0 to |tree|
      invariant store.writes == old(store.writes) + FileWrites(fullName, tree[..i], remote)
      invariant saved == |FileWrites(fullName, tree[..i], remote)|
      invariant sent == ContentRequests(repo, branch, headers, tree[..i])
    {
      var node := tree[i];
      assert tree[..i + 1] == tree[..i] + [node];
      assert [node][1..] == [];
      FileWritesAppend(fullName, tree[..i], [node], remote);
      ContentRequestsAppend(repo, branch, headers, tree[..i], [node]);
      if IsBlob(node) {
        sent := sent + [Request(ContentsEndpoint(repo.owner, repo.name, node.path, branch), headers)];
        var blob := ContentFor(remote, node.path);
        if blob.status != 200 {
          continue;
        }
        store.CreateDocument("filedocument", FileDoc(FileRecord(fullName, node, blob)));
        saved := saved + 1;
      }
    }
    assert tree[..|tree|] == tree;
  }

  /**
   * Runs one sync against `store`: the store receives exactly the writes of
   * `Sync`, appended to what it held, and the requests sent and the result are
   * those of `Sync`. A failed sync leaves the store as it was.
   */
  method SyncRepository(store: DocumentStore, payload: SyncRequest, env: Option<string>, remote: Remote)
    returns (result: SyncResult, sent: seq<Request>)
    modifies store
    ensures result == Sync(payload, env, remote).result
    ensures sent == Sync(payload, env, remote).sent
    ensures store.writes == old(store.writes) + Sync(payload, env, remote).writes
    ensures result.Failed? ==> store.writes == old(store.writes)
  {
    var parsed := ParseRepoUrl(payload.repoUrl);
    if parsed.Failure? {
      return Failed(parsed.error), [];
    }
    var repo := parsed.value;
    var fullName := repo.FullName();
    var headers := GithubHeaders(payload.token, env);

    sent := [Request(RepoEndpoint(repo.owner, repo.name), headers)];
    var repoResp := remote.repo;
    if repoResp.status != 200 {
      return Failed(HttpError(repoResp.status, repoResp.text)), sent;
    }
    var branch := EffectiveBranch(payload.branch, repoResp);

    sent := sent + [Request(TreeEndpoint(repo.owner, repo.name, branch), headers)];
    var treeResp := remote.tree;
    if treeResp.status != 200 {
      return Failed(HttpError(treeResp.status, treeResp.text)), sent;
    }
    var tree := treeResp.tree;

    store.CreateDocument("repo", RepoRecord(repo, payload.repoUrl, branch, repoResp));
    var saved, contentCalls := StoreFiles(store, repo, branch, headers, tree, remote);
    sent := sent + contentCalls;

    store.CreateDocument("repo_sync_log", SyncLog(fullName, saved));
    result := Synced(saved, fullName);
    SyncSucceeds(payload, env, remote, repo);
  }
}
