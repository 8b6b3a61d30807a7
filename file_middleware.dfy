/** The path handling of Sources/Vapor/Middleware/FileMiddleware.swift: the
    public directory is made to end in `/`, and a request path is made
    relative, refused when it holds `../`, and appended to the directory.
    What happens to the resulting file path (the existence check and the
    streaming) is file-system I/O and is not part of this model. */
module FileMiddlewarePaths {
  import opened Text

  /** `publicDirectory` as `init` stores it: with exactly one `/` appended
      unless it already ends with one. */
  function NormalizeDirectory(directory: string): (r: string)
    ensures HasSuffix(r, '/')
    ensures HasSuffix(directory, '/') ==> r == directory
    ensures !HasSuffix(directory, '/') ==> r == directory + "/"
  {
    if HasSuffix(directory, '/') then directory else directory + "/"
  }

  /** Normalising an already normalised directory changes nothing. */
  lemma NormalizeIdempotent(directory: string)
    ensures NormalizeDirectory(NormalizeDirectory(directory)) == NormalizeDirectory(directory)
  {
  }

  /** `path` with its whole leading run of `/` removed. */
  function StripLeadingSlashes(path: string): (r: string)
    ensures !HasPrefix(r, '/')
    ensures |r| <= |path| && r == path[|path| - |r|..]
    ensures forall i :: 0 <= i < |path| - |r| ==> path[i] == '/'
  {
    if HasPrefix(path, '/') then StripLeadingSlashes(path[1..]) else path
  }

  /** Running the stripping loop again on its own output changes nothing. */
  lemma StripIdempotent(path: string)
    ensures StripLeadingSlashes(StripLeadingSlashes(path)) == StripLeadingSlashes(path)
  {
  }

  /** What `respond` does before touching the file system. */
  datatype FileResponse =
    | Forbidden                    // `Abort(.forbidden)`
    | CheckFile(filePath: string)  // go on to look for the file at `filePath`

  class FileMiddleware {
    /** The public directory. */
    const publicDirectory: string

    /** The directory "must end with a slash". */
    ghost predicate Valid()
      reads this
    {
      HasSuffix(publicDirectory, '/')
    }

    /** `init(publicDirectory:fileio:)`; the `FileIO` handle is not modelled. */
    constructor (publicDirectory: string)
      ensures Valid()
      ensures this.publicDirectory == NormalizeDirectory(publicDirectory)
    {
      this.publicDirectory := NormalizeDirectory(publicDirectory);
    }

    /** The path-sanitising prefix of `respond(to:chainingTo:)` for a request
        whose URL path is `requestPath`. */
    method Respond(requestPath: string) returns (r: FileResponse)
      requires Valid()
      ensures r == Forbidden <==> Contains(StripLeadingSlashes(requestPath), "../")
      ensures r.CheckFile? ==> r.filePath == publicDirectory + StripLeadingSlashes(requestPath)
      // the checked path lies lexically inside the public directory
      ensures r.CheckFile? ==>
        var rest := r.filePath[|publicDirectory|..];
        r.filePath[..|publicDirectory|] == publicDirectory && HasSuffix(publicDirectory, '/') &&
        !HasPrefix(rest, '/') && !exists i :: OccursAt(rest, "../", i)
    {
      var path := requestPath;
      while HasPrefix(path, '/')
        invariant StripLeadingSlashes(path) == StripLeadingSlashes(requestPath)
        decreases |path|
      {
        path := path[1..];
      }
      if Contains(path, "../") {
        return Forbidden;
      }
      var filePath := publicDirectory + path;
      return CheckFile(filePath);
    }
  }
}
