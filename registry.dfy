/** What the script sees of a GitLab package registry project, with every HTTP call replaced by
    the value it returns. A `Project` is a snapshot of the answers the registry gives during one
    run of the script. */
module Registry {

  /** GitLab package ids are JSON integers. */
  type PackageId = nat

  /** The two fields the script reads from a package-info response. */
  datatype PackageInfo = PackageInfo(name: string, version: string)

  /** The `X-Total-Pages` header of the first page-size-100 listing request: absent, present but
      not something `int()` accepts, or a (possibly zero or negative) integer. */
  datatype TotalPages = MissingHeader | NotAnInteger | Count(n: int)

  /** The `content-disposition` header of a file download: absent, present without a
      `filename="..."` part, or naming the file. */
  datatype Disposition = NoDisposition | NoFileName | Attachment(fileName: string)

  /** Exceptions the script raises outside any `try` block; each one ends the run. */
  datatype Fatal =
    | MissingTotalPages           // KeyError on the pagination header
    | MalformedTotalPages         // ValueError from int() on that header
    | MissingContentDisposition(url: string)  // KeyError on the download's header
    | NoFileNameInDisposition(url: string)    // IndexError on the empty findall result

  /** One registry project and the answers its API gives:
      - `totalPages`: the pagination header of `GET .../packages?per_page=100`;
      - `page(i)`: the `id` of every package on `GET .../packages?per_page=100&page=i`, in response order;
      - `info(id)`: name and version from `GET .../packages/{id}`;
      - `simpleIndex(name)`: every anchor `href` of the PyPI simple index page of that name;
      - `download(url)`: the `content-disposition` of a download of that URL. */
  datatype Project = Project(
    server: string,
    projectId: string,
    totalPages: TotalPages,
    page: int -> seq<PackageId>,
    info: PackageId -> PackageInfo,
    simpleIndex: string -> seq<string>,
    download: string -> Disposition)

  /** Decimal rendering of a package id, as an f-string formats an `int`. */
  function Decimal(n: nat): string
  {
    if n < 10 then [DigitChar(n)] else Decimal(n / 10) + [DigitChar(n % 10)]
  }

  function DigitChar(d: nat): char
    requires d < 10
  {
    "0123456789"[d]
  }

  /** The REST API root every registry call is made under. */
  function ApiServer(p: Project): string
  {
    p.server + "/api/v4"
  }

  /** The endpoint of one package of the project, as the package-info request builds it. */
  function PackageUrl(p: Project, id: PackageId): string
  {
    ApiServer(p) + "/projects/" + p.projectId + "/packages/" + Decimal(id)
  }
}
