/**
 * The decisions `main` of the elf-test runner takes before handing over to
 * the decoder, the transpiler and the SDK: how it reads its arguments, how it
 * sizes the signature region, and whether it runs with signature capture.
 */
module ElfTestMain {
  import opened Wrappers
  import opened ElfSymbols
  import opened SignatureBounds

  /** A command-line argument as the operating system hands it over. */
  datatype OsArg = Unicode(text: string) | NotUnicode

  /**
   * `env::args().collect()`: the arguments as strings, or None where one of
   * them is not valid Unicode (collecting then panics).
   */
  function CollectArgs(raw: seq<OsArg>): (r: Option<seq<string>>)
    ensures r.Some? <==> forall i | 0 <= i < |raw| :: raw[i].Unicode?
    ensures r.Some? ==> |r.value| == |raw| && forall i | 0 <= i < |raw| :: r.value[i] == raw[i].text
  {
    if |raw| == 0 then Some([])
    else
      match raw[0]
      case NotUnicode => None
      case Unicode(text) =>
        match CollectArgs(raw[1..])
        case None => None
        case Some(rest) => Some([text] + rest)
  }

  /** Arguments given as strings, as the operating system would pass them. */
  function OsArgs(args: seq<string>): (raw: seq<OsArg>)
    ensures |raw| == |args|
    ensures forall i | 0 <= i < |args| :: raw[i] == Unicode(args[i])
  {
    seq(|args|, i requires 0 <= i < |args| => Unicode(args[i]))
  }

  /** Collecting arguments that are all valid Unicode gives them back unchanged. */
  lemma CollectOsArgs(args: seq<string>)
    ensures CollectArgs(OsArgs(args)) == Some(args)
  {
    var r := CollectArgs(OsArgs(args));
    assert r.Some?;
    assert r.value == args;
  }

  /** `<elf-file> [signature-output]`, after the program name. */
  datatype Invocation = Invocation(elfPath: string, signaturePath: Option<string>)

  /** What the argument check leads to. */
  datatype ArgsOutcome =
    | Usage        // fewer than two arguments: usage message, exit code 1
    | EmptyArgv    // no arguments at all: printing `args[0]` in the usage message panics
    | Args(inv: Invocation)

  const USAGE_EXIT_CODE: int := 1

  /**
   * The argument check: at least two arguments (program name included) are
   * needed; the ELF path is argument 1 and the optional signature path is
   * argument 2.
   */
  function ParseArgs(args: seq<string>): (r: ArgsOutcome)
    ensures r.Args? <==> |args| >= 2
    ensures r == EmptyArgv <==> |args| == 0
    ensures r.Args? ==> r.inv.elfPath == args[1]
    ensures r.Args? ==> (r.inv.signaturePath.Some? <==> |args| > 2)
    ensures r.Args? && |args| > 2 ==> r.inv.signaturePath.value == args[2]
  {
    if |args| < 2 then
      if |args| == 0 then EmptyArgv else Usage
    else
      Args(Invocation(args[1], if |args| > 2 then Some(args[2]) else None))
  }

  /**
   * ParseArgs recovers what a caller put on the command line: the ELF path,
   * and the signature path when there is one; anything after it is ignored.
   */
  lemma ParseArgsRecovers(prog: string, elfPath: string, signaturePath: Option<string>, extra: seq<string>)
    ensures
      var tail := if signaturePath.Some? then [signaturePath.value] + extra else [];
      ParseArgs([prog, elfPath] + tail) == Args(Invocation(elfPath, signaturePath))
  {
  }

  /** How the SDK is asked to execute the program. */
  datatype Capture = WithSignature(path: string) | WithoutSignature

  /** Capture is chosen exactly when a signature path was given, and writes to it. */
  function CaptureChoice(inv: Invocation): (c: Capture)
    ensures c.WithSignature? <==> inv.signaturePath.Some?
    ensures c.WithSignature? ==> inv.signaturePath == Some(c.path)
  {
    match inv.signaturePath
    case Some(path) => WithSignature(path)
    case None => WithoutSignature
  }

  /** Capture is chosen exactly when a third argument exists, and writes to that path. */
  lemma CaptureIffThirdArgument(args: seq<string>)
    requires |args| >= 2
    ensures CaptureChoice(ParseArgs(args).inv)
         == if |args| > 2 then WithSignature(args[2]) else WithoutSignature
  {
  }

  /**
   * `(end - begin) as usize` on u32 operands: None where the subtraction
   * overflows; otherwise the size that takes begin to end.
   */
  function SignatureSize(region: Region): (size: Option<u32>)
    ensures size.Some? <==> region.begin <= region.end
    ensures size.Some? ==> region.begin + size.value == region.end
  {
    if region.begin <= region.end then Some(region.end - region.begin) else None
  }

  /** A region returned by the scan always has a size, and it is positive and exact. */
  lemma FoundRegionHasPositiveSize(elf: ElfView)
    requires Bounds(elf).Some?
    ensures
      var region := Bounds(elf).value;
      && SignatureSize(region).Some?
      && 0 < SignatureSize(region).value
      && region.begin + SignatureSize(region).value == region.end
  {
  }

  /** Signature symbols at 0x1000 and 0x1040 give a 64-byte region. */
  lemma SixtyFourByteRegion()
    ensures
      var elf := Parsed([Symbol(Decoded(BEGIN_SIGNATURE), 0x1000), Symbol(Decoded(END_SIGNATURE), 0x1040)]);
      && Bounds(elf) == Some(Region(0x1000, 0x1040))
      && SignatureSize(Bounds(elf).value) == Some(64)
  {
    var syms := [Symbol(Decoded(BEGIN_SIGNATURE), 0x1000), Symbol(Decoded(END_SIGNATURE), 0x1040)];
    assert BEGIN_SIGNATURE[0] != END_SIGNATURE[0];
    LastAddressIsLastEntry(syms, BEGIN_SIGNATURE, 0);
    LastAddressIsLastEntry(syms, END_SIGNATURE, 1);
  }

  datatype PanicReason = NonUnicodeArgument | ArgvIndexOutOfBounds | SignatureNotFound | SizeOverflow

  /** How `main` ends, up to the point where it hands over to the decoder. */
  datatype MainOutcome =
    | ExitCode(code: int)
    | Panic(reason: PanicReason)
    | ReadFailed
    | HandOver(elf: ElfView, region: Region, size: u32, capture: Capture)

  /**
   * `main` with reading a file as a parameter (`read(path)` is None when the
   * read fails): collect and check the arguments, read the file named by
   * argument 1, find the signature region or abort, size it, and choose how
   * to execute. A hand-over carries the data read, which goes to the decoder.
   */
  function RunElfTest(raw: seq<OsArg>, read: string -> Option<ElfView>): (r: MainOutcome)
    ensures r != Panic(SizeOverflow)
    ensures r.HandOver? ==> |raw| >= 2 && raw[1].Unicode? && read(raw[1].text) == Some(r.elf)
    ensures r.HandOver? ==> Bounds(r.elf) == Some(r.region)
    ensures r.HandOver? ==> 0 < r.size && r.region.begin + r.size == r.region.end
  {
    match CollectArgs(raw)
    case None => Panic(NonUnicodeArgument)
    case Some(args) =>
      match ParseArgs(args)
      case EmptyArgv => Panic(ArgvIndexOutOfBounds)
      case Usage => ExitCode(USAGE_EXIT_CODE)
      case Args(inv) =>
        match read(inv.elfPath)
        case None => ReadFailed
        case Some(elf) =>
          match Bounds(elf)
          case None => Panic(SignatureNotFound)
          case Some(region) =>
            FoundRegionHasPositiveSize(elf);
            match SignatureSize(region)
            case None => Panic(SizeOverflow)
            case Some(size) => HandOver(elf, region, size, CaptureChoice(inv))
  }

  /** An argument that is not valid Unicode panics before anything else happens. */
  lemma NonUnicodeArgumentPanics(raw: seq<OsArg>, read: string -> Option<ElfView>, k: nat)
    requires k < |raw| && raw[k] == NotUnicode
    ensures RunElfTest(raw, read) == Panic(NonUnicodeArgument)
  {
  }

  /** Fewer than two arguments stop the program before it reads anything. */
  lemma ShortArgsStop(args: seq<string>, read: string -> Option<ElfView>)
    requires |args| < 2
    ensures RunElfTest(OsArgs(args), read)
         == if |args| == 1 then ExitCode(USAGE_EXIT_CODE) else Panic(ArgvIndexOutOfBounds)
  {
    CollectOsArgs(args);
  }

  /** Without a signature region the program aborts before anything is decoded or executed. */
  lemma MissingRegionAborts(args: seq<string>, read: string -> Option<ElfView>)
    requires |args| >= 2 && read(args[1]).Some? && Bounds(read(args[1]).value).None?
    ensures RunElfTest(OsArgs(args), read) == Panic(SignatureNotFound)
  {
    CollectOsArgs(args);
  }

  /**
   * `main` reaches the decode, transpile and execute stage exactly when every
   * argument is valid Unicode, there are at least two, the file named by
   * argument 1 is read and the scan finds a region in it; it then passes on
   * the data read, that region, its exact positive size, and capture to
   * argument 2 exactly when there is one.
   */
  lemma HandsOverIffRegionFound(raw: seq<OsArg>, read: string -> Option<ElfView>)
    ensures RunElfTest(raw, read).HandOver? <==>
      && (forall i | 0 <= i < |raw| :: raw[i].Unicode?)
      && |raw| >= 2 && read(raw[1].text).Some? && Bounds(read(raw[1].text).value).Some?
    ensures RunElfTest(raw, read).HandOver? ==>
      var out := RunElfTest(raw, read);
      && Some(out.elf) == read(raw[1].text)
      && Bounds(out.elf) == Some(out.region)
      && 0 < out.size && out.region.begin + out.size == out.region.end
      && (out.capture.WithSignature? <==> |raw| > 2)
      && (out.capture.WithSignature? ==> out.capture.path == raw[2].text)
  {
  }
}
