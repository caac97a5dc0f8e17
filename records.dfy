/**
 * The values the ingestion core passes around: the sync request, the three kinds
 * of remote response, the documents it writes and the errors it raises.
 */
module Records {
  import opened Wrappers

  /** An HTTP error raised to the caller: a status code and a detail text. */
  datatype HttpError = HttpError(status: int, detail: string)

  /** A repository identified by its owner and name. */
  datatype RepoRef = RepoRef(owner: string, name: string) {
    /** The `owner/name` key every stored record refers to. */
    function FullName(): string {
      owner + "/" + name
    }
  }

  /** The body of a sync request: a locator, an optional branch and an optional token. */
  datatype SyncRequest = SyncRequest(repoUrl: string, branch: Option<string>, token: Option<string>)

  /** The repository-metadata response; the two optional fields are JSON keys that may be missing. */
  datatype RepoResponse = RepoResponse(
    status: int, text: string, defaultBranch: Option<string>, description: Option<string>)

  /** One node of the recursive tree listing; `kind` is its `type` key ("blob", "tree", ...). */
  datatype TreeEntry = TreeEntry(path: string, kind: Option<string>, sha: Option<string>, size: Option<int>)

  /** The tree response; a missing `tree` key is an empty listing. */
  datatype TreeResponse = TreeResponse(status: int, text: string, tree: seq<TreeEntry>)

  /** The response to one file-contents request. */
  datatype ContentResponse = ContentResponse(status: int, encoding: Option<string>, content: Option<string>)

  /**
   * What the remote service answers during one sync: the metadata and tree
   * responses, and the contents response for each path it knows.
   */
  datatype Remote = Remote(repo: RepoResponse, tree: TreeResponse, contents: map<string, ContentResponse>)

  /** The three remote endpoints the core calls. */
  datatype Endpoint =
    | RepoEndpoint(owner: string, name: string)
    | TreeEndpoint(owner: string, name: string, ref: string)
    | ContentsEndpoint(owner: string, name: string, path: string, ref: string)

  /** One outbound request: where it goes and the headers it carries. */
  datatype Request = Request(endpoint: Endpoint, headers: map<string, string>)

  /** The `repo` document. */
  datatype Repo = Repo(
    owner: string, name: string, fullName: string, url: string,
    defaultBranch: string, description: Option<string>)

  /** The `filedocument` document. */
  datatype FileDocument = FileDocument(
    repoFullName: string, path: string, sha: Option<string>, size: Option<int>,
    kind: string, content: Option<string>, encoding: string, language: Option<string>)

  datatype Document =
    | RepoDoc(repo: Repo)
    | FileDoc(file: FileDocument)
    | SyncLog(fullName: string, saved: int)

  /** One `create_document(collection, document)` call. */
  datatype Write = Write(collection: string, doc: Document)

  /** What a sync returns: the count and the repository, or the error it raised. */
  datatype SyncResult = Synced(saved: nat, repo: string) | Failed(error: HttpError)
}
