/**
 * The outside world of the mirror: both registries' HTTP interfaces and the
 * local staging directory.
 *
 * Every request the program issues is appended to an effect trace, and the
 * registries answer from a `Network`, a fixed function from request to reply;
 * every property of the model is proved for every such network. The local
 * filesystem is a map from path to file content; directories are not
 * modelled.
 */
module Effects {
  import opened Model

  /** A filesystem path, as its sequence of components. */
  type Path = seq<Bytes>

  /**
   * The reply to one HTTP request: the request could not be sent or its
   * response not read, the server answered with a non-success status, or it
   * answered with success and a decoded value.
   */
  datatype Reply<T> = TransportError | ErrorStatus | Success(value: T)

  /** One request to a registry. */
  datatype Effect =
    | ListOrigin(perPage: nat)                      // GET of the GitHub release list
    | ListMirror(perPage: nat)                      // GET of the Gitee release list
    | Create(payload: ReleaseJson)                  // POST of a new Gitee release
    | Update(id: nat, payload: ReleaseJson)         // PATCH of Gitee release `id`
    | Delete(id: nat)                               // DELETE of Gitee release `id`
    | Download(url: Bytes, path: Path)              // download of an asset into a file
    | Get(url: Bytes)                               // GET of an asset, read as a stream
    | Upload(releaseId: nat, path: Path, content: Bytes) // POST of a file to a Gitee release

  /** How the registries answer each request. */
  datatype Network = Network(
    originList: nat -> Reply<seq<Release>>,
    mirrorList: nat -> Reply<seq<Release>>,
    create: ReleaseJson -> Reply<Release>,
    update: (nat, ReleaseJson) -> Reply<Release>,
    delete: nat -> Reply<()>,
    download: Bytes -> Reply<Bytes>,
    upload: (nat, Path, Bytes) -> Reply<()>)

  /** What the program has done so far: its requests, and the local files. */
  datatype State = State(trace: seq<Effect>, fs: map<Path, Bytes>)

  /** The error of an operation that stopped at a failed request. */
  type Outcome = Result<(), Effect>

  function Emit(st: State, e: Effect): State
  {
    State(st.trace + [e], st.fs)
  }

  /** `a` is `b` with more requests appended and no file removed. */
  predicate Extends(a: State, b: State)
  {
    |b.trace| <= |a.trace| && a.trace[..|b.trace|] == b.trace && b.fs.Keys <= a.fs.Keys
  }

  lemma ExtendsTransitive(a: State, b: State, c: State)
    requires Extends(a, b) && Extends(b, c)
    ensures Extends(a, c)
  {
    assert a.trace[..|c.trace|] == a.trace[..|b.trace|][..|c.trace|];
  }

  /**
   * The world one run of the program sees: the requests issued so far, the
   * local files, and the registries' answers.
   */
  class World {
    var trace: seq<Effect>
    var fs: map<Path, Bytes>
    const net: Network

    constructor (net: Network, fs: map<Path, Bytes>)
      ensures this.net == net && this.fs == fs && trace == []
    {
      this.net := net;
      this.fs := fs;
      trace := [];
    }

    function Now(): State
      reads this
    {
      State(trace, fs)
    }

    predicate Exists(path: Path)
      reads this
    {
      path in fs
    }

    method FetchOrigin(perPage: nat) returns (r: Reply<seq<Release>>)
      modifies this`trace
      ensures Now() == Emit(old(Now()), ListOrigin(perPage))
      ensures r == net.originList(perPage)
    {
      trace := trace + [ListOrigin(perPage)];
      r := net.originList(perPage);
    }

    method FetchMirror(perPage: nat) returns (r: Reply<seq<Release>>)
      modifies this`trace
      ensures Now() == Emit(old(Now()), ListMirror(perPage))
      ensures r == net.mirrorList(perPage)
    {
      trace := trace + [ListMirror(perPage)];
      r := net.mirrorList(perPage);
    }

    method Post(payload: ReleaseJson) returns (r: Reply<Release>)
      modifies this`trace
      ensures Now() == Emit(old(Now()), Create(payload))
      ensures r == net.create(payload)
    {
      trace := trace + [Create(payload)];
      r := net.create(payload);
    }

    method Patch(id: nat, payload: ReleaseJson) returns (r: Reply<Release>)
      modifies this`trace
      ensures Now() == Emit(old(Now()), Update(id, payload))
      ensures r == net.update(id, payload)
    {
      trace := trace + [Update(id, payload)];
      r := net.update(id, payload);
    }

    method DeleteRelease(id: nat) returns (r: Reply<()>)
      modifies this`trace
      ensures Now() == Emit(old(Now()), Delete(id))
      ensures r == net.delete(id)
    {
      trace := trace + [Delete(id)];
      r := net.delete(id);
    }

    /** Downloads `url` into the file `path`; the file is written only on success. */
    method DownloadTo(url: Bytes, path: Path) returns (ok: bool)
      modifies this
      ensures ok == net.download(url).Success?
      ensures trace == old(trace) + [Download(url, path)]
      ensures fs == if ok then old(fs)[path := net.download(url).value] else old(fs)
    {
      trace := trace + [Download(url, path)];
      var reply := net.download(url);
      ok := reply.Success?;
      if ok {
        fs := fs[path := reply.value];
      }
    }

    /** Sends a GET for `url`; on success the body is readable from a fresh stream. */
    method GetStream(url: Bytes) returns (r: Reply<BodyReader>)
      modifies this`trace
      ensures Now() == Emit(old(Now()), Get(url))
      ensures r.TransportError? == net.download(url).TransportError?
      ensures r.ErrorStatus? == net.download(url).ErrorStatus?
      ensures r.Success? ==> fresh(r.value) && r.value.rest == net.download(url).value
    {
      trace := trace + [Get(url)];
      match net.download(url)
      case TransportError => r := TransportError;
      case ErrorStatus => r := ErrorStatus;
      case Success(body) =>
        var reader := new BodyReader(body);
        r := Success(reader);
    }

    /** Sends the file `path` as an attachment of Gitee release `id`. */
    method UploadFile(id: nat, path: Path) returns (r: Reply<()>)
      requires path in fs
      modifies this`trace
      ensures Now() == Emit(old(Now()), Upload(id, path, fs[path]))
      ensures r == net.upload(id, path, fs[path])
    {
      trace := trace + [Upload(id, path, fs[path])];
      r := net.upload(id, path, fs[path]);
    }

    /** `File::create`: the file exists and is empty. */
    method CreateFile(path: Path)
      modifies this`fs
      ensures Now() == State(old(trace), old(fs)[path := []])
    {
      fs := fs[path := []];
    }

    /** `write_all` on an open file: `data` is appended. */
    method Append(path: Path, data: Bytes)
      requires path in fs
      modifies this`fs
      ensures Now() == State(old(trace), old(fs)[path := old(fs)[path] + data])
    {
      fs := fs[path := fs[path] + data];
    }

    /** `fs::write`: the file holds `data`. */
    method WriteFile(path: Path, data: Bytes)
      modifies this`fs
      ensures Now() == State(old(trace), old(fs)[path := data])
    {
      fs := fs[path := data];
    }
  }

  /**
   * A response body read as a stream. `Read` delivers some of the bytes not yet
   * read, at most a buffer's worth and at least one while any remain; zero
   * bytes means the end of the body.
   */
  class BodyReader {
    var rest: Bytes

    constructor (body: Bytes)
      ensures rest == body
    {
      rest := body;
    }

    method Read(buffer: array<byte>) returns (n: nat)
      modifies this, buffer
      ensures n <= buffer.Length && n <= |old(rest)|
      ensures n == 0 <==> (buffer.Length == 0 || old(rest) == [])
      ensures buffer[..n] == old(rest)[..n]
      ensures rest == old(rest)[n..]
    {
      n := if buffer.Length < |rest| then buffer.Length else |rest|;
      var i := 0;
      while i < n
        invariant 0 <= i <= n
        invariant rest == old(rest)
        invariant buffer[..i] == rest[..i]
      {
        buffer[i] := rest[i];
        i := i + 1;
      }
      rest := rest[n..];
    }
  }
}
