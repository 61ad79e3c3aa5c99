/** Tool and container-format negotiation: which external commands must be
    present, which compressor to use, and whether an archive is (or should be)
    a squashfs image or a compressed tar stream. `available` is the set of
    command names found on the search path. */
module Negotiation {
  import opened Results
  import opened Errors

  type Byte = bv8

  /** Commands checked at start-up, in the order they are checked. */
  const RequiredCommands: seq<string> := ["borg", "tar", "zstd"]

  /** A compression tool with its compress and decompress command lines. */
  datatype Compressor = Compressor(tool: string, compress: string, decompress: string)

  /** Preference order for compressing a tar stream. */
  const TarCompressors: seq<Compressor> := [
    Compressor("zstd", "zstd -9", "zstd -d"),
    Compressor("pigz", "pigz -9", "pigz -d"),
    Compressor("gzip", "gzip -9", "gzip -d")
  ]

  /** Preference order for the compression options of a squashfs image. */
  const SquashfsCompressors: seq<Compressor> := [
    Compressor("zstd", "-comp zstd -Xcompression-level 9", "-comp zstd"),
    Compressor("gzip", "-comp gzip -Xcompression-level 9", "-comp gzip")
  ]

  /** The first four bytes of every squashfs image: "hsqs". */
  const SquashfsMagic: seq<Byte> := [0x68, 0x73, 0x71, 0x73]

  /** Fails with the first required command that is not available. */
  method CheckRequiredCommands(available: set<string>) returns (r: Outcome<Error>)
    ensures r.Pass? <==> forall c :: c in RequiredCommands ==> c in available
    ensures r.Fail? ==> exists i :: 0 <= i < |RequiredCommands|
                          && RequiredCommands[i] !in available
                          && (forall j :: 0 <= j < i ==> RequiredCommands[j] in available)
                          && r.error == CommandNotFoundError([RequiredCommands[i]])
  {
    for i := 0 to |RequiredCommands|
      invariant forall j :: 0 <= j < i ==> RequiredCommands[j] in available
    {
      if RequiredCommands[i] !in available {
        return Fail(CommandNotFoundError([RequiredCommands[i]]));
      }
    }
    return Pass;
  }

  function Tools(prefs: seq<Compressor>): (tools: seq<string>)
    ensures |tools| == |prefs|
    ensures forall i :: 0 <= i < |prefs| ==> tools[i] == prefs[i].tool
  {
    if prefs == [] then [] else [prefs[0].tool] + Tools(prefs[1..])
  }

  /** Reference definition: the first compressor of a preference list whose
      tool is available, or a failure naming every tool that was tried. */
  function FirstAvailable(prefs: seq<Compressor>, available: set<string>): (r: Result<(string, string), Error>)
    ensures r.Failure? <==> forall i :: 0 <= i < |prefs| ==> prefs[i].tool !in available
    ensures r.Failure? ==> r.error == CommandNotFoundError(Tools(prefs))
    ensures r.Success? ==> exists i :: 0 <= i < |prefs|
                             && prefs[i].tool in available
                             && (forall j :: 0 <= j < i ==> prefs[j].tool !in available)
                             && r.value == (prefs[i].compress, prefs[i].decompress)
  {
    if |prefs| == 0 then Failure(CommandNotFoundError([]))
    else if prefs[0].tool in available then Success((prefs[0].compress, prefs[0].decompress))
    else
      var rest := FirstAvailable(prefs[1..], available);
      if rest.Failure? then Failure(CommandNotFoundError(Tools(prefs))) else rest
  }

  /** The (compress, decompress) command pair for an archiver: "tar" prefers
      zstd, then pigz, then gzip; "squashfs" prefers zstd, then gzip; any
      other archiver name is a runtime error. */
  function BestCompressor(archiver: string, available: set<string>): (r: Result<(string, string), Error>)
    ensures archiver == "tar" ==> r == FirstAvailable(TarCompressors, available)
    ensures archiver == "squashfs" ==> r == FirstAvailable(SquashfsCompressors, available)
    ensures archiver != "tar" && archiver != "squashfs" ==> r == Failure(RuntimeError(archiver))
  {
    if archiver == "tar" then
      if "zstd" in available then Success(("zstd -9", "zstd -d"))
      else if "pigz" in available then Success(("pigz -9", "pigz -d"))
      else if "gzip" in available then Success(("gzip -9", "gzip -d"))
      else
        assert Tools(TarCompressors) == ["zstd", "pigz", "gzip"];
        Failure(CommandNotFoundError(["zstd", "pigz", "gzip"]))
    else if archiver == "squashfs" then
      if "zstd" in available then Success(("-comp zstd -Xcompression-level 9", "-comp zstd"))
      else if "gzip" in available then Success(("-comp gzip -Xcompression-level 9", "-comp gzip"))
      else
        assert Tools(SquashfsCompressors) == ["zstd", "gzip"];
        Failure(CommandNotFoundError(["zstd", "gzip"]))
    else
      Failure(RuntimeError(archiver))
  }

  /** True when the leading bytes of a file are the squashfs magic. */
  predicate HasSquashfsMagic(head: seq<Byte>) {
    |head| >= 4 && head[..4] == SquashfsMagic
  }

  /** "squashfs" or "tar". With a path, the answer comes from the leading
      bytes of that path when it is a regular file (`files` maps each regular
      file to its leading bytes); without one, squashfs is chosen exactly when
      mksquashfs is available. */
  function BestArchiver(filePath: Option<string>, files: map<string, seq<Byte>>, available: set<string>): (r: string)
    ensures r == "tar" || r == "squashfs"
  {
    var isSquashfs := filePath.Some? && filePath.value in files && HasSquashfsMagic(files[filePath.value]);
    var hasSquashfs := "mksquashfs" in available;
    // The fallback to `hasSquashfs` when `isSquashfs` is unknown never applies:
    // `isSquashfs` is always a definite boolean.
    if filePath.Some? then
      if isSquashfs then "squashfs" else "tar"
    else if hasSquashfs then "squashfs" else "tar"
  }

  /** Reading: an existing archive is treated as squashfs exactly when it is a
      regular file that starts with the squashfs magic, whatever tools exist. */
  lemma ReadFormatByContent(path: string, files: map<string, seq<Byte>>, available: set<string>)
    ensures BestArchiver(Some(path), files, available) == "squashfs"
        <==> path in files && HasSquashfsMagic(files[path])
  {
  }

  /** Writing: squashfs is chosen exactly when mksquashfs is available,
      whatever files exist. */
  lemma WriteFormatByTools(files: map<string, seq<Byte>>, available: set<string>)
    ensures BestArchiver(None, files, available) == "squashfs" <==> "mksquashfs" in available
  {
  }

  /** Leading bytes that each compressor's output starts with: the zstd frame
      magic, or the gzip member magic (pigz writes gzip format). */
  const ZstdMagic: seq<Byte> := [0x28, 0xB5, 0x2F, 0xFD]
  const GzipMagic: seq<Byte> := [0x1F, 0x8B]

  function CompressedHead(compress: string): seq<Byte> {
    if compress == "zstd -9" then ZstdMagic else GzipMagic
  }

  /** Round trip of the container format: an archive written by a squashfs
      image starts with its magic and is read back as squashfs; one written
      as a tar stream through any tar compressor is read back as tar. */
  lemma FormatRoundTrip(path: string, files: map<string, seq<Byte>>, available: set<string>, rest: seq<Byte>)
    ensures BestArchiver(Some(path), files[path := SquashfsMagic + rest], available) == "squashfs"
    ensures BestCompressor("tar", available).Success? ==>
              var head := CompressedHead(BestCompressor("tar", available).value.0);
              BestArchiver(Some(path), files[path := head + rest], available) == "tar"
  {
    assert (SquashfsMagic + rest)[..4] == SquashfsMagic;
    if BestCompressor("tar", available).Success? {
      var head := CompressedHead(BestCompressor("tar", available).value.0);
      var content := head + rest;
      if |content| >= 4 {
        assert content[1] == head[1] != SquashfsMagic[1];
      }
    }
  }
}
