/**
 * The file-based validator registry (`src/registry/filesystem.rs`,
 * `src/registry/mod.rs`): one comma-separated line per validator, with the
 * index in field 0, the hex public key in field 2 and the socket address in
 * field 3. Socket-address parsing belongs to the standard library and is a
 * parameter here, as is BLS key decoding (a field of `Crypto`).
 */
module Registry {
  import opened Wrappers
  import opened Common
  import opened Text

  datatype SocketAddr = SocketAddr(ip: seq<nat>, port: nat)

  /** `ValidatorInfo`. */
  datatype ValidatorInfo = ValidatorInfo(index: U64, blsPubKey: PublicKey, stake: U64, socket: SocketAddr, exists_: bool)

  /** Why a load fails. `FieldMissing` is an out-of-bounds index into the fields, which panics. */
  datatype LoadError =
    | OpenFailed
    | ReadFailed(line: nat)
    | BadIndex(line: nat)
    | FieldMissing(line: nat, field: nat)
    | BadHex(line: nat)
    | BadPublicKey(line: nat)
    | BadSocket(line: nat)

  /** `FilesystemRegistry`: the path it was read from and the validators in file order. */
  datatype FilesystemRegistry = FilesystemRegistry(path: string, validators: seq<ValidatorInfo>)

  /**
   * One line, in the order the source inspects it: the index from field 0,
   * then field 2 hex-decoded into a BLS key, then the socket address from
   * field 3. Field 1 (the private key) is never read; stake is always 0.
   */
  function ParseLine(c: Crypto, parseSocket: string -> Option<SocketAddr>, line: string, n: nat): (r: Result<ValidatorInfo, LoadError>)
    ensures r.Success? ==> |Split(line, ',')| >= 4
    ensures r.Success? ==> Some(r.value.index) == ParseU64(Split(line, ',')[0])
    ensures r.Success? ==> exists bytes :: HexDecode(Split(line, ',')[2]) == Some(bytes) && c.publicKeyFromBytes(bytes) == Some(r.value.blsPubKey)
    ensures r.Success? ==> Some(r.value.socket) == parseSocket(Split(line, ',')[3])
    ensures r.Success? ==> r.value.stake == 0 && r.value.exists_
  {
    var parts := Split(line, ',');
    match ParseU64(parts[0])
    case None => Failure(BadIndex(n))
    case Some(index) =>
      if |parts| < 3 then Failure(FieldMissing(n, 2))
      else match HexDecode(parts[2])
      case None => Failure(BadHex(n))
      case Some(bytes) =>
        match c.publicKeyFromBytes(bytes)
        case None => Failure(BadPublicKey(n))
        case Some(key) =>
          if |parts| < 4 then Failure(FieldMissing(n, 3))
          else match parseSocket(parts[3])
          case None => Failure(BadSocket(n))
          case Some(socket) => Success(ValidatorInfo(index, key, 0, socket, true))
  }

  /** Parses lines `from` onwards, stopping at the first failure. */
  function ParseLines(c: Crypto, parseSocket: string -> Option<SocketAddr>, lines: seq<Option<string>>, from: nat): (r: Result<seq<ValidatorInfo>, LoadError>)
    requires from <= |lines|
    ensures r.Success? ==> |r.value| == |lines| - from
    ensures r.Success? ==> forall k | from <= k < |lines| ::
      lines[k].Some? && ParseLine(c, parseSocket, lines[k].value, k) == Success(r.value[k - from])
    decreases |lines| - from
  {
    if from == |lines| then Success([])
    else match lines[from]
      case None => Failure(ReadFailed(from))
      case Some(line) =>
        match ParseLine(c, parseSocket, line, from)
        case Failure(e) => Failure(e)
        case Success(info) =>
          match ParseLines(c, parseSocket, lines, from + 1)
          case Failure(e) => Failure(e)
          case Success(rest) => Success([info] + rest)
  }

  /** The first line, from `from` on, that fails to read or parse, if any. */
  predicate SomeLineFails(c: Crypto, parseSocket: string -> Option<SocketAddr>, lines: seq<Option<string>>, from: nat)
    requires from <= |lines|
  {
    exists k | from <= k < |lines| :: lines[k].None? || ParseLine(c, parseSocket, lines[k].value, k).Failure?
  }

  /** The load succeeds exactly when every line reads and parses. */
  lemma {:induction false} ParseLinesFailsIffSomeLineFails(c: Crypto, parseSocket: string -> Option<SocketAddr>, lines: seq<Option<string>>, from: nat)
    requires from <= |lines|
    ensures ParseLines(c, parseSocket, lines, from).Failure? <==> SomeLineFails(c, parseSocket, lines, from)
    decreases |lines| - from
  {
    if from < |lines| {
      ParseLinesFailsIffSomeLineFails(c, parseSocket, lines, from + 1);
      if lines[from].Some? && ParseLine(c, parseSocket, lines[from].value, from).Success? {
        if SomeLineFails(c, parseSocket, lines, from) {
          var k :| from <= k < |lines| && (lines[k].None? || ParseLine(c, parseSocket, lines[k].value, k).Failure?);
          assert k != from;
        }
      }
    }
  }

  /**
   * The file as the registry sees it: `None` when it cannot be opened,
   * otherwise its lines, each `None` where reading it fails.
   */
  datatype FileContents = Unopenable | Readable(lines: seq<Option<string>>)

  /** `FilesystemRegistry::read_from_file`: all validators, or the first error. */
  function ReadFromFile(c: Crypto, parseSocket: string -> Option<SocketAddr>, path: string, file: FileContents): (r: Result<FilesystemRegistry, LoadError>)
    ensures file.Unopenable? ==> r == Failure(OpenFailed)
    ensures r.Success? ==> r.value.path == path && file.Readable?
    ensures r.Success? ==> |r.value.validators| == |file.lines|
    ensures r.Success? ==> forall k | 0 <= k < |file.lines| ::
      file.lines[k].Some? && ParseLine(c, parseSocket, file.lines[k].value, k) == Success(r.value.validators[k])
  {
    match file
    case Unopenable => Failure(OpenFailed)
    case Readable(lines) =>
      match ParseLines(c, parseSocket, lines, 0)
      case Failure(e) => Failure(e)
      case Success(validators) => Success(FilesystemRegistry(path, validators))
  }

  /** A readable file loads iff no line fails; a failure leaves no partial registry. */
  lemma ReadFromFileAllOrNothing(c: Crypto, parseSocket: string -> Option<SocketAddr>, path: string, lines: seq<Option<string>>)
    ensures ReadFromFile(c, parseSocket, path, Readable(lines)).Success? <==> !SomeLineFails(c, parseSocket, lines, 0)
  {
    ParseLinesFailsIffSomeLineFails(c, parseSocket, lines, 0);
  }

  /** The line `bin/gen_keys.rs` writes for validator `i`. */
  function GeneratedLine(i: U64, secretKey: Bytes, publicKey: Bytes, socket: string): string {
    DecimalString(i) + "," + EncodePrefixed(secretKey) + "," + EncodePrefixed(publicKey) + "," + socket
  }

  /**
   * The fields of a generated line: the index, the two `0x` hex keys and the
   * socket text; the index parses back and field 2 decodes to the public key.
   */
  lemma GeneratedLineFields(i: U64, secretKey: Bytes, publicKey: Bytes, socket: string)
    requires ',' !in socket
    ensures Split(GeneratedLine(i, secretKey, publicKey, socket), ',')
      == [DecimalString(i), EncodePrefixed(secretKey), EncodePrefixed(publicKey), socket]
    ensures ParseU64(DecimalString(i)) == Some(i)
    ensures HexDecode(EncodePrefixed(publicKey)) == Some(publicKey)
  {
    var fields := [DecimalString(i), EncodePrefixed(secretKey), EncodePrefixed(publicKey), socket];
    forall k | 0 <= k < 4
      ensures ',' !in fields[k]
    {
      if k < 3 {
        NoCommaInEncodings(i, secretKey, publicKey, k, fields[k]);
      }
    }
    GeneratedLineJoin(fields);
    SplitJoin(fields, ',');
    ParseFormattedU64(i);
    HexRoundTrip(publicKey);
  }

  /** A generated line is its four fields joined by commas. */
  lemma GeneratedLineJoin(fields: seq<string>)
    requires |fields| == 4
    ensures Join(fields, ',') == fields[0] + [','] + fields[1] + [','] + fields[2] + [','] + fields[3]
  {
    assert fields[1..][1..][1..] == [fields[3]];
    assert Join(fields[1..][1..], ',') == fields[2] + [','] + fields[3];
    assert Join(fields[1..], ',') == fields[1] + [','] + (fields[2] + [','] + fields[3]);
  }

  /**
   * A generated line parses to validator `i` with the decoded key, for a
   * socket text the socket parser accepts (an IP literal, for the standard
   * `SocketAddr` parser); the private key in field 1 plays no part.
   */
  lemma GeneratedLineParses(c: Crypto, parseSocket: string -> Option<SocketAddr>, i: U64, secretKey: Bytes, publicKey: Bytes, socket: string, n: nat, key: PublicKey, addr: SocketAddr)
    requires ',' !in socket
    requires c.publicKeyFromBytes(publicKey) == Some(key)
    requires parseSocket(socket) == Some(addr)
    ensures ParseLine(c, parseSocket, GeneratedLine(i, secretKey, publicKey, socket), n) == Success(ValidatorInfo(i, key, 0, addr, true))
  {
    GeneratedLineFields(i, secretKey, publicKey, socket);
  }

  /**
   * A generated line whose socket text the parser rejects, such as the host
   * name `dato-validator-{i}:8222` under the standard `SocketAddr` parser,
   * fails with `BadSocket` even though its index and key are well formed.
   */
  lemma GeneratedLineRejected(c: Crypto, parseSocket: string -> Option<SocketAddr>, i: U64, secretKey: Bytes, publicKey: Bytes, socket: string, n: nat, key: PublicKey)
    requires ',' !in socket
    requires c.publicKeyFromBytes(publicKey) == Some(key)
    requires parseSocket(socket) == None
    ensures ParseLine(c, parseSocket, GeneratedLine(i, secretKey, publicKey, socket), n) == Failure(BadSocket(n))
  {
    GeneratedLineFields(i, secretKey, publicKey, socket);
  }

  lemma NoCommaInEncodings(i: U64, secretKey: Bytes, publicKey: Bytes, k: nat, field: string)
    requires k < 3
    requires field == [DecimalString(i), EncodePrefixed(secretKey), EncodePrefixed(publicKey)][k]
    ensures ',' !in field
  {
    if k > 0 {
      var b := if k == 1 then secretKey else publicKey;
      assert field == "0x" + EncodeHex(b);
    }
  }

  /** Every character of a generated line is a hex digit, `x`, a comma or a character of the socket text. */
  lemma GeneratedLineCharacters(i: U64, secretKey: Bytes, publicKey: Bytes, socket: string)
    ensures forall j | 0 <= j < |GeneratedLine(i, secretKey, publicKey, socket)| ::
      var ch := GeneratedLine(i, secretKey, publicKey, socket)[j];
      IsHexDigit(ch) || ch == 'x' || ch == ',' || ch in socket
  {
  }

  /** `ValidatorInfo::identity`: the index (a `u64` fits a 64-bit `usize`) and the BLS key. */
  function Identity(info: ValidatorInfo): (id: ValidatorIdentity)
    ensures id.index == info.index && id.pubkey == info.blsPubKey
  {
    ValidatorIdentity(info.index, info.blsPubKey)
  }

  /** `Registry::validator_count` for the file registry: the list length cast to `u64`. */
  function ValidatorCount(r: FilesystemRegistry): (n: U64)
    ensures |r.validators| < U64_LIMIT ==> n == |r.validators|
  {
    |r.validators| % U64_LIMIT
  }

  /** `Registry::all_validators` for the file registry: the cached list, never an error. */
  function AllValidators(r: FilesystemRegistry): (result: Result<seq<ValidatorInfo>, LoadError>)
    ensures result == Success(r.validators)
  {
    Success(r.validators)
  }

  /** A loaded registry counts one validator per line of its file. */
  lemma LoadedCountIsLineCount(c: Crypto, parseSocket: string -> Option<SocketAddr>, path: string, lines: seq<Option<string>>)
    requires |lines| < U64_LIMIT
    requires ReadFromFile(c, parseSocket, path, Readable(lines)).Success?
    ensures ValidatorCount(ReadFromFile(c, parseSocket, path, Readable(lines)).value) == |lines|
    ensures AllValidators(ReadFromFile(c, parseSocket, path, Readable(lines)).value).value ==
      ReadFromFile(c, parseSocket, path, Readable(lines)).value.validators
  {
  }

  /** A readable file whose every line parses loads exactly the parsed validators, in file order. */
  lemma ParsedLinesLoad(c: Crypto, parseSocket: string -> Option<SocketAddr>, path: string, lines: seq<Option<string>>, expected: seq<ValidatorInfo>)
    requires |lines| == |expected|
    requires forall k | 0 <= k < |lines| :: lines[k].Some? && ParseLine(c, parseSocket, lines[k].value, k) == Success(expected[k])
    ensures ReadFromFile(c, parseSocket, path, Readable(lines)) == Success(FilesystemRegistry(path, expected))
  {
    ParseLinesFailsIffSomeLineFails(c, parseSocket, lines, 0);
    var r := ReadFromFile(c, parseSocket, path, Readable(lines));
    assert r.Success?;
    assert r.value.validators == expected;
  }

  /** The lines of a text file, each read without error. */
  function TextFile(text: string): (file: FileContents)
    ensures file.Readable? && |file.lines| == |Lines(text)|
    ensures forall k | 0 <= k < |file.lines| :: file.lines[k] == Some(Lines(text)[k])
  {
    var ls := Lines(text);
    Readable(seq(|ls|, k requires 0 <= k < |ls| => Some(ls[k])))
  }

  /** The lines `bin/gen_keys.rs` writes for validators `0 .. n-1`. */
  function GeneratedLines(secretKeys: seq<Bytes>, publicKeys: seq<Bytes>, sockets: seq<string>): (ls: seq<string>)
    requires |secretKeys| == |publicKeys| == |sockets| < U64_LIMIT
    ensures |ls| == |sockets|
    ensures forall k | 0 <= k < |ls| :: ls[k] == GeneratedLine(k, secretKeys[k], publicKeys[k], sockets[k])
  {
    seq(|sockets|, k requires 0 <= k < |sockets| => GeneratedLine(k, secretKeys[k], publicKeys[k], sockets[k]))
  }

  /** Each generated line parses to its validator, for socket texts the socket parser accepts. */
  lemma GeneratedLinesParse(c: Crypto, parseSocket: string -> Option<SocketAddr>,
                            secretKeys: seq<Bytes>, publicKeys: seq<Bytes>, sockets: seq<string>,
                            keys: seq<PublicKey>, addrs: seq<SocketAddr>, expected: seq<ValidatorInfo>)
    requires |secretKeys| == |publicKeys| == |sockets| == |keys| == |addrs| == |expected| < U64_LIMIT
    requires forall k | 0 <= k < |sockets| :: ',' !in sockets[k]
    requires forall k | 0 <= k < |publicKeys| :: c.publicKeyFromBytes(publicKeys[k]) == Some(keys[k])
    requires forall k | 0 <= k < |sockets| :: parseSocket(sockets[k]) == Some(addrs[k])
    requires forall k | 0 <= k < |expected| :: expected[k] == ValidatorInfo(k, keys[k], 0, addrs[k], true)
    ensures var ls := GeneratedLines(secretKeys, publicKeys, sockets);
      forall k | 0 <= k < |ls| :: ParseLine(c, parseSocket, ls[k], k) == Success(expected[k])
  {
    forall k | 0 <= k < |sockets|
      ensures ParseLine(c, parseSocket, GeneratedLine(k, secretKeys[k], publicKeys[k], sockets[k]), k) == Success(expected[k])
    {
      GeneratedLineParses(c, parseSocket, k, secretKeys[k], publicKeys[k], sockets[k], k, keys[k], addrs[k]);
    }
  }

  /** The generated lines, each terminated by a line feed, read back as themselves. */
  lemma GeneratedTextLines(secretKeys: seq<Bytes>, publicKeys: seq<Bytes>, sockets: seq<string>)
    requires |secretKeys| == |publicKeys| == |sockets| < U64_LIMIT
    requires forall k | 0 <= k < |sockets| :: ',' !in sockets[k] && '\n' !in sockets[k] && '\r' !in sockets[k]
    ensures var ls := GeneratedLines(secretKeys, publicKeys, sockets);
      && Lines(Join(ls + [""], '\n')) == ls
      && var lines := TextFile(Join(ls + [""], '\n')).lines;
        |lines| == |ls| && forall k | 0 <= k < |lines| :: lines[k] == Some(ls[k])
  {
    var ls := GeneratedLines(secretKeys, publicKeys, sockets);
    if |ls| == 0 {
      assert Join(ls + [""], '\n') == "";
    } else {
      forall k | 0 <= k < |ls|
        ensures '\n' !in ls[k] && (|ls[k]| == 0 || ls[k][|ls[k]| - 1] != '\r')
      {
        GeneratedLineCharacters(k, secretKeys[k], publicKeys[k], sockets[k]);
      }
      LinesOfTerminated(ls);
    }
  }

  /**
   * A whole file in the generated format, every line terminated by a line
   * feed, loads into validators `0 .. n-1` in file order, each with the
   * decoded key of its line, stake 0, and the registry counts `n` of them,
   * provided the socket parser accepts every socket text (IP literals, for
   * the standard `SocketAddr` parser). `GeneratedFileRejected` is the case
   * where it does not.
   */
  lemma GeneratedFileLoads(c: Crypto, parseSocket: string -> Option<SocketAddr>, path: string,
                           secretKeys: seq<Bytes>, publicKeys: seq<Bytes>, sockets: seq<string>,
                           keys: seq<PublicKey>, addrs: seq<SocketAddr>)
    requires |secretKeys| == |publicKeys| == |sockets| == |keys| == |addrs| < U64_LIMIT
    requires forall k | 0 <= k < |sockets| :: ',' !in sockets[k] && '\n' !in sockets[k] && '\r' !in sockets[k]
    requires forall k | 0 <= k < |publicKeys| :: c.publicKeyFromBytes(publicKeys[k]) == Some(keys[k])
    requires forall k | 0 <= k < |sockets| :: parseSocket(sockets[k]) == Some(addrs[k])
    ensures var r := ReadFromFile(c, parseSocket, path, TextFile(Join(GeneratedLines(secretKeys, publicKeys, sockets) + [""], '\n')));
      && r.Success?
      && r.value.path == path
      && |r.value.validators| == |sockets|
      && (forall k | 0 <= k < |sockets| :: r.value.validators[k] == ValidatorInfo(k, keys[k], 0, addrs[k], true))
      && ValidatorCount(r.value) == |sockets|
  {
    var ls := GeneratedLines(secretKeys, publicKeys, sockets);
    var expected := seq(|sockets|, k requires 0 <= k < |sockets| => ValidatorInfo(k, keys[k], 0, addrs[k], true));
    GeneratedLinesParse(c, parseSocket, secretKeys, publicKeys, sockets, keys, addrs, expected);
    GeneratedTextLines(secretKeys, publicKeys, sockets);
    ParsedLinesLoad(c, parseSocket, path, TextFile(Join(ls + [""], '\n')).lines, expected);
  }

  /**
   * With a socket parser that rejects the first line's socket text, as the
   * standard `SocketAddr` parser rejects the host names `bin/gen_keys.rs`
   * writes, the generated file does not load: line 0 fails with `BadSocket`.
   */
  lemma GeneratedFileRejected(c: Crypto, parseSocket: string -> Option<SocketAddr>, path: string,
                              secretKeys: seq<Bytes>, publicKeys: seq<Bytes>, sockets: seq<string>, keys: seq<PublicKey>)
    requires |secretKeys| == |publicKeys| == |sockets| == |keys| < U64_LIMIT
    requires |sockets| > 0
    requires forall k | 0 <= k < |sockets| :: ',' !in sockets[k] && '\n' !in sockets[k] && '\r' !in sockets[k]
    requires forall k | 0 <= k < |publicKeys| :: c.publicKeyFromBytes(publicKeys[k]) == Some(keys[k])
    requires parseSocket(sockets[0]) == None
    ensures ReadFromFile(c, parseSocket, path, TextFile(Join(GeneratedLines(secretKeys, publicKeys, sockets) + [""], '\n')))
      == Failure(BadSocket(0))
  {
    var ls := GeneratedLines(secretKeys, publicKeys, sockets);
    GeneratedTextLines(secretKeys, publicKeys, sockets);
    GeneratedLineRejected(c, parseSocket, 0, secretKeys[0], publicKeys[0], sockets[0], 0, keys[0]);
    var lines := TextFile(Join(ls + [""], '\n')).lines;
    assert lines[0] == Some(ls[0]);
    assert ParseLines(c, parseSocket, lines, 0) == Failure(BadSocket(0));
  }
}
