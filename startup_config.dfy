/**
 * `checkPathAndAddress`: the start-up check of the root directory and of
 * the `ip:port` address.  Each failure that makes the program print a
 * message and exit is returned as an error instead.  Octets and port are
 * read with `parseInt` without a radix; a NaN passes every range test.
 */
module StartupConfig {
  import opened JsStrings
  import opened JsNumbers

  /** The failures, named after the message printed before exiting. */
  datatype ConfigError = InvalidPath | InvalidAddress | InvalidIp | InvalidPort

  datatype Result<T> = Success(value: T) | Failure(error: ConfigError)

  /** The object returned on success. */
  datatype Config = Config(rootPath: string, ip: string, port: Num)

  /** `parseInt(octet) < 0 || parseInt(octet) > 255` */
  predicate OctetRejected(octet: string) {
    ParseInt(octet, true).OutOfRange(0, 255)
  }

  /** `parseInt(port) < 0 || parseInt(port) > 65535` */
  predicate PortRejected(port: string) {
    ParseInt(port, true).OutOfRange(0, 65535)
  }

  /** No octet is rejected. */
  predicate OctetsAccepted(octets: seq<string>) {
    forall i :: 0 <= i < |octets| ==> !OctetRejected(octets[i])
  }

  /** The address part of the check, as a function of the address alone. */
  function ValidateAddress(address: string): Result<(string, Num)> {
    var addressArray := Split(address, ':');
    if |addressArray| != 2 then Failure(InvalidAddress)
    else
      var ip := addressArray[0];
      var ipArray := Split(ip, '.');
      if |ipArray| != 4 || !OctetsAccepted(ipArray) then Failure(InvalidIp)
      else if PortRejected(addressArray[1]) then Failure(InvalidPort)
      else Success((ip, ParseInt(addressArray[1], true)))
  }

  /**
   * The whole check: `path.resolve(rootPath)` must exist, then the address
   * must be valid.
   */
  function Validate(rootPath: string, address: string, resolve: string -> string, pathExists: string -> bool): (r: Result<Config>)
    ensures r == Failure(InvalidPath) <==> !pathExists(resolve(rootPath))
    ensures r.Success? ==> r.value.rootPath == resolve(rootPath) && ValidateAddress(address) == Success((r.value.ip, r.value.port))
    ensures r.Failure? && r.error != InvalidPath ==> ValidateAddress(address) == Failure(r.error)
  {
    var resolved := resolve(rootPath);
    if !pathExists(resolved) then Failure(InvalidPath)
    else
      match ValidateAddress(address)
      case Failure(e) => Failure(e)
      case Success((ip, port)) => Success(Config(resolved, ip, port))
  }

  /**
   * `checkPathAndAddress(rootPath, address)`, with `path.resolve` and
   * `fs.existsSync` given as functions.
   */
  method CheckPathAndAddress(rootPath: string, address: string, resolve: string -> string, pathExists: string -> bool)
    returns (r: Result<Config>)
    ensures r == Validate(rootPath, address, resolve, pathExists)
  {
    var root := resolve(rootPath);
    if !pathExists(root) {
      return Failure(InvalidPath);
    }
    var addressArray := Split(address, ':');
    if |addressArray| != 2 {
      return Failure(InvalidAddress);
    }
    var ip := addressArray[0];
    var ipArray := Split(ip, '.');
    if |ipArray| != 4 {
      return Failure(InvalidIp);
    }
    for i := 0 to 4
      invariant forall j :: 0 <= j < i ==> !OctetRejected(ipArray[j])
    {
      if OctetRejected(ipArray[i]) {
        return Failure(InvalidIp);
      }
    }
    var port := addressArray[1];
    if PortRejected(port) {
      return Failure(InvalidPort);
    }
    return Success(Config(root, ip, ParseInt(port, true)));
  }

  /**
   * The check succeeds exactly when the address has two `:`-pieces, the ip
   * has four `.`-pieces, no octet is a number outside 0..255 and the port
   * is not a number outside 0..65535; the port returned is `parseInt(port)`.
   */
  lemma ValidateAddressSucceeds(address: string)
    ensures var parts := Split(address, ':');
      ValidateAddress(address).Success? <==>
        |parts| == 2 && |Split(parts[0], '.')| == 4
        && (forall i :: 0 <= i < 4 ==> !ParseInt(Split(parts[0], '.')[i], true).OutOfRange(0, 255))
        && !ParseInt(parts[1], true).OutOfRange(0, 65535)
    ensures var parts := Split(address, ':');
      ValidateAddress(address).Success? ==>
        address == parts[0] + ":" + parts[1] && Free(parts[0], ':')
        && ValidateAddress(address).value == (parts[0], ParseInt(parts[1], true))
  {
    var parts := Split(address, ':');
    if |parts| == 2 {
      JoinSplit(address, ':');
      SplitPiecesFree(address, ':');
      assert Join(parts, ':') == parts[0] + [':'] + parts[1];
    }
  }

  /**
   * An address written as four octets and a port, none holding a `.` or a
   * `:`, is accepted when the octets and the port pass their range tests,
   * and then the ip and the port come back as written.
   */
  lemma WellFormedAddress(octets: seq<string>, port: string)
    requires |octets| == 4
    requires forall k :: 0 <= k < 4 ==> Free(octets[k], '.') && Free(octets[k], ':')
    requires Free(port, ':')
    requires OctetsAccepted(octets) && !PortRejected(port)
    ensures ValidateAddress(Join(octets, '.') + ":" + port) == Success((Join(octets, '.'), ParseInt(port, true)))
  {
    var ip := Join(octets, '.');
    JoinFree(octets, '.', ':');
    SplitJoin([ip, port], ':');
    assert Join([ip, port], ':') == ip + ":" + port by {
      assert [ip, port][1..] == [port];
    }
    SplitJoin(octets, '.');
  }

  /** A joined list of pieces free of `c` is free of `c` when the joining character is not `c`. */
  lemma {:induction false} JoinFree(parts: seq<string>, sep: char, c: char)
    requires |parts| > 0 && sep != c
    requires forall k :: 0 <= k < |parts| ==> Free(parts[k], c)
    ensures Free(Join(parts, sep), c)
  {
    if |parts| > 1 {
      JoinFree(parts[1..], sep, c);
      var head, tail := parts[0] + [sep], Join(parts[1..], sep);
      forall i | 0 <= i < |head + tail| ensures (head + tail)[i] != c {
        if i < |head| {
          assert (head + tail)[i] == head[i];
        } else {
          assert (head + tail)[i] == tail[i - |head|];
        }
      }
    }
  }

  /** `"8080"` is the decimal text of 8080. */
  lemma Text8080()
    ensures DecimalString(8080) == "8080"
  {
    assert DecimalString(8) == "8";
    assert DecimalString(80) == "80";
    assert DecimalString(808) == "808";
  }

  /** `0.0.0.0` is four zero octets joined with dots. */
  lemma ZeroOctets()
    ensures Join(["0", "0", "0", "0"], '.') == "0.0.0.0"
  {
    var octets := ["0", "0", "0", "0"];
    assert octets[1..] == ["0", "0", "0"];
    assert octets[1..][1..] == ["0", "0"];
    assert octets[1..][1..][1..] == ["0"];
  }

  /** `parseInt("0")` is 0 and `parseInt("8080")` is 8080. */
  lemma DefaultNumbers()
    ensures ParseInt("0", true) == Int(0)
    ensures ParseInt("8080", true) == Int(8080)
  {
    ParseAutoDecimal(0, []);
    assert DecimalString(0) + [] == "0";
    Text8080();
    ParseAutoDecimal(8080, []);
    assert DecimalString(8080) + [] == "8080";
  }

  /** The default address `0.0.0.0:8080` is accepted with port 8080. */
  lemma DefaultAddress()
    ensures ValidateAddress("0.0.0.0:8080") == Success(("0.0.0.0", Int(8080)))
  {
    var octets := ["0", "0", "0", "0"];
    DefaultNumbers();
    assert OctetsAccepted(octets);
    ZeroOctets();
    WellFormedAddress(octets, "8080");
    assert Join(octets, '.') + ":" + "8080" == "0.0.0.0:8080";
  }

  /** Text that starts with a character that is neither white space, nor a sign, nor a digit is NaN. */
  lemma NoDigitIsNaN(s: string)
    requires s != [] && !IsWhiteSpace(s[0]) && s[0] != '+' && s[0] != '-' && !IsDigit(s[0], 10)
    ensures ParseInt(s, true) == NaN
  {
    assert TrimStart(s) == s;
  }

  /** One-letter octets and port parse as NaN and so pass the range tests. */
  lemma LettersAccepted()
    ensures OctetsAccepted(["a", "b", "c", "d"])
    ensures ParseInt("x", true) == NaN && !PortRejected("x")
  {
    NoDigitIsNaN("a");
    NoDigitIsNaN("b");
    NoDigitIsNaN("c");
    NoDigitIsNaN("d");
    NoDigitIsNaN("x");
  }

  /** `50` read in hexadecimal is 80. */
  lemma HexFifty()
    ensures DigitPrefix("50", 16) == "50" && ValueOf("50", 16) == 80
  {
    DigitPrefixOf("50", [], 16);
    assert "50" + [] == "50";
    assert "50"[..1] == "5" && "5"[..0] == [];
  }

  /**
   * Without a radix `parseInt` reads a `0x` prefix as hexadecimal, so the
   * port `0x50` is 80; with radix 10 the same text reads as 0.
   */
  lemma HexadecimalPort()
    ensures ParseInt("0x50", true) == Int(80)
    ensures ParseInt("0x50", false) == Int(0)
  {
    var s := "0x50";
    assert TrimStart(s) == s;
    assert s[2..] == "50";
    HexFifty();
    assert ParseInt(s, true) == Int(80);
    ParseFromDigit(s, false);
    DigitPrefixOf("0", "x50", 10);
    assert "0" + "x50" == s;
    assert ValueOf("0", 10) == 0 by {
      assert "0"[..0] == [];
    }
  }

  /** `a.b.c.d` is four one-letter octets joined with dots. */
  lemma LetterOctets()
    ensures Join(["a", "b", "c", "d"], '.') == "a.b.c.d"
  {
    var octets := ["a", "b", "c", "d"];
    assert octets[1..] == ["b", "c", "d"];
    assert octets[1..][1..] == ["c", "d"];
    assert octets[1..][1..][1..] == ["d"];
  }

  /**
   * Octets and port that are not numbers at all pass the range tests:
   * `a.b.c.d:x` is accepted, with a NaN port.
   */
  lemma NotANumberAccepted()
    ensures ValidateAddress("a.b.c.d:x") == Success(("a.b.c.d", NaN))
  {
    var octets := ["a", "b", "c", "d"];
    LettersAccepted();
    LetterOctets();
    WellFormedAddress(octets, "x");
    assert Join(octets, '.') + ":" + "x" == "a.b.c.d:x";
  }
}
