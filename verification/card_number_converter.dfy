/** How card numbers are stored: AES-GCM under a key from the environment,
    with a fresh 12-byte IV written in front of the cipher output and the
    whole payload Base64-encoded. The cipher, Base64 and UTF-8 are taken as
    given functions obeying their round-trip laws; the IV is an argument. */
module CardNumberConverter {
  import opened Wrappers

  type Byte = bv8

  const IvLength: nat := 12
  /** A 128-bit GCM tag is appended to every cipher output. */
  const TagLength: nat := 16
  const PropertyNameDot: string := "encryption.aes.key"
  const PropertyNameEnv: string := "ENCRYPTION_AES_KEY"

  /** The outside functions the converter calls. */
  datatype Primitives = Primitives(
    base64Encode: seq<Byte> -> string,
    base64Decode: string -> Option<seq<Byte>>,
    seal: (seq<Byte>, seq<Byte>, seq<Byte>) -> seq<Byte>,
    open: (seq<Byte>, seq<Byte>, seq<Byte>) -> Option<seq<Byte>>,
    utf8Encode: string -> seq<Byte>,
    utf8Decode: seq<Byte> -> string)

  /** The laws the converter relies on: Base64 and UTF-8 round-trip, opening
      what was sealed under the same key and IV gives the plaintext back,
      the cipher output is the plaintext plus the tag, and an input too
      short to hold a tag never opens. Base64 output has the standard
      padded length. */
  ghost predicate Lawful(p: Primitives)
  {
    && (forall b :: p.base64Decode(p.base64Encode(b)) == Some(b))
    && (forall b :: |p.base64Encode(b)| == 4 * ((|b| + 2) / 3))
    && (forall k, iv, m :: p.open(k, iv, p.seal(k, iv, m)) == Some(m))
    && (forall k, iv, m :: |p.seal(k, iv, m)| == |m| + TagLength)
    && (forall k, iv, c :: |c| < TagLength ==> p.open(k, iv, c) == None)
    && (forall s :: p.utf8Decode(p.utf8Encode(s)) == s)
    && (forall s :: |p.utf8Encode(s)| >= |s|)
  }

  datatype ConverterError =
    | KeyNotFound       // IllegalStateException: no key under either name
    | KeyInvalid        // IllegalStateException: not Base64, or wrong length
    | InvalidBase64     // IllegalStateException: stored value is not Base64
    | BufferUnderflow   // BufferUnderflowException: fewer bytes than an IV
    | DecryptionFailed  // IllegalStateException: the tag check failed

  predicate IsAesKeyLength(n: nat)
  {
    n == 16 || n == 24 || n == 32
  }

  /** `environment.getProperty`, with an empty value counting as missing. */
  function Lookup(env: map<string, string>, name: string): (r: Option<string>)
    ensures r.Some? <==> name in env && env[name] != []
    ensures r.Some? ==> r.value == env[name]
  {
    if name in env && env[name] != [] then Some(env[name]) else None
  }

  /** The constructor: the dotted property wins over the environment-style
      name; the value must be Base64 of 16, 24 or 32 bytes. */
  function LoadKey(p: Primitives, env: map<string, string>): (r: Result<seq<Byte>, ConverterError>)
    ensures Lookup(env, PropertyNameDot).None? && Lookup(env, PropertyNameEnv).None? <==> r == Failure(KeyNotFound)
    ensures r.Success? ==> IsAesKeyLength(|r.value|)
    ensures Lookup(env, PropertyNameDot).Some? ==>
              var d := p.base64Decode(Lookup(env, PropertyNameDot).value);
              r == if d.Some? && IsAesKeyLength(|d.value|) then Success(d.value) else Failure(KeyInvalid)
    ensures Lookup(env, PropertyNameDot).None? && Lookup(env, PropertyNameEnv).Some? ==>
              var d := p.base64Decode(Lookup(env, PropertyNameEnv).value);
              r == if d.Some? && IsAesKeyLength(|d.value|) then Success(d.value) else Failure(KeyInvalid)
  {
    var text := if Lookup(env, PropertyNameDot).Some? then Lookup(env, PropertyNameDot)
                else Lookup(env, PropertyNameEnv);
    match text
    case None => Failure(KeyNotFound)
    case Some(t) =>
      match p.base64Decode(t)
      case None => Failure(KeyInvalid)
      case Some(bytes) =>
        if IsAesKeyLength(|bytes|) then Success(bytes) else Failure(KeyInvalid)
  }

  // ---------------------------------------------------------------- framing

  /** The stored layout: the IV, then the cipher output. */
  function Frame(iv: seq<Byte>, body: seq<Byte>): (r: seq<Byte>)
    requires |iv| == IvLength
    ensures |r| == IvLength + |body|
    ensures r[..IvLength] == iv && r[IvLength..] == body
  {
    iv + body
  }

  /** Reading the layout back: the first 12 bytes are the IV and all the
      rest is the cipher output; a shorter payload underflows. */
  function Unframe(payload: seq<Byte>): (r: Result<(seq<Byte>, seq<Byte>), ConverterError>)
    ensures |payload| < IvLength <==> r == Failure(BufferUnderflow)
    ensures r.Success? ==> |r.value.0| == IvLength && r.value.0 + r.value.1 == payload
  {
    if |payload| < IvLength then Failure(BufferUnderflow)
    else Success((payload[..IvLength], payload[IvLength..]))
  }

  /** Unframing undoes framing. */
  lemma UnframeFrame(iv: seq<Byte>, body: seq<Byte>)
    requires |iv| == IvLength
    ensures Unframe(Frame(iv, body)) == Success((iv, body))
  {
  }

  /** Framing undoes unframing. */
  lemma FrameUnframe(payload: seq<Byte>)
    requires Unframe(payload).Success?
    ensures Frame(Unframe(payload).value.0, Unframe(payload).value.1) == payload
  {
  }

  // ------------------------------------------------------------- the columns

  /** `convertToDatabaseColumn`: null stays null; otherwise the UTF-8 bytes
      are sealed under `key` and `iv`, framed and Base64-encoded. */
  function ConvertToDatabaseColumn(p: Primitives, key: seq<Byte>, iv: seq<Byte>, attribute: Option<string>)
    : (r: Option<string>)
    requires |iv| == IvLength
    ensures attribute.None? <==> r.None?
    ensures r.Some? ==>
              r.value == p.base64Encode(Frame(iv, p.seal(key, iv, p.utf8Encode(attribute.value))))
  {
    match attribute
    case None => None
    case Some(s) => Some(p.base64Encode(Frame(iv, p.seal(key, iv, p.utf8Encode(s)))))
  }

  /** `convertToEntityAttribute`: null stays null; otherwise the value is
      Base64-decoded, unframed, opened and read as UTF-8. */
  function ConvertToEntityAttribute(p: Primitives, key: seq<Byte>, data: Option<string>)
    : (r: Result<Option<string>, ConverterError>)
    ensures data.None? <==> r == Success(None)
    ensures data.Some? && p.base64Decode(data.value).None? ==> r == Failure(InvalidBase64)
    ensures data.Some? && p.base64Decode(data.value).Some? && |p.base64Decode(data.value).value| < IvLength ==>
              r == Failure(BufferUnderflow)
    ensures data.Some? && p.base64Decode(data.value).Some? && |p.base64Decode(data.value).value| >= IvLength ==>
              var payload := p.base64Decode(data.value).value;
              (r == Failure(DecryptionFailed) <==> p.open(key, payload[..IvLength], payload[IvLength..]).None?)
              && (r.Success? <==> p.open(key, payload[..IvLength], payload[IvLength..]).Some?)
    ensures r.Success? && data.Some? ==>
              var payload := p.base64Decode(data.value).value;
              && |payload| >= IvLength
              && p.open(key, payload[..IvLength], payload[IvLength..]).Some?
              && r.value == Some(p.utf8Decode(p.open(key, payload[..IvLength], payload[IvLength..]).value))
  {
    match data
    case None => Success(None)
    case Some(text) =>
      match p.base64Decode(text)
      case None => Failure(InvalidBase64)
      case Some(payload) =>
        match Unframe(payload)
        case Failure(e) => Failure(e)
        case Success((iv, body)) =>
          match p.open(key, iv, body)
          case None => Failure(DecryptionFailed)
          case Some(plain) => Success(Some(p.utf8Decode(plain)))
  }

  // ---------------------------------------------------------------- partners

  /** Reading back what was written, under the same key, gives the card
      number back, null included. */
  lemma RoundTrip(p: Primitives, key: seq<Byte>, iv: seq<Byte>, attribute: Option<string>)
    requires Lawful(p)
    requires |iv| == IvLength
    ensures ConvertToEntityAttribute(p, key, ConvertToDatabaseColumn(p, key, iv, attribute)) == Success(attribute)
  {
    if attribute.Some? {
      var s := attribute.value;
      var sealed := p.seal(key, iv, p.utf8Encode(s));
      UnframeFrame(iv, sealed);
      assert p.base64Decode(p.base64Encode(Frame(iv, sealed))) == Some(Frame(iv, sealed));
    }
  }

  /** The stored text is longer than the card number it hides. */
  lemma StoredFormIsLonger(p: Primitives, key: seq<Byte>, iv: seq<Byte>, s: string)
    requires Lawful(p)
    requires |iv| == IvLength
    ensures |ConvertToDatabaseColumn(p, key, iv, Some(s)).value| > |s|
  {
    var m := p.utf8Encode(s);
    var framed := Frame(iv, p.seal(key, iv, m));
    assert |framed| == IvLength + |m| + TagLength;
    assert |p.base64Encode(framed)| == 4 * ((|framed| + 2) / 3);
  }

  /** A stored value decoding to fewer bytes than an IV underflows; one of
      exactly an IV fails the tag check. Neither yields a card number. */
  lemma ShortPayloadsRejected(p: Primitives, key: seq<Byte>, text: string)
    requires Lawful(p)
    requires p.base64Decode(text).Some? && |p.base64Decode(text).value| <= IvLength
    ensures |p.base64Decode(text).value| < IvLength ==>
              ConvertToEntityAttribute(p, key, Some(text)) == Failure(BufferUnderflow)
    ensures |p.base64Decode(text).value| == IvLength ==>
              ConvertToEntityAttribute(p, key, Some(text)) == Failure(DecryptionFailed)
  {
    var payload := p.base64Decode(text).value;
    if |payload| == IvLength {
      assert |payload[IvLength..]| == 0 < TagLength;
      assert p.open(key, payload[..IvLength], payload[IvLength..]) == None;
    }
  }

  /** Once the dotted property is set, the environment-style name is never
      consulted: changing it changes nothing. */
  lemma DotPropertyTakesPrecedence(p: Primitives, env: map<string, string>, other: string)
    requires Lookup(env, PropertyNameDot).Some?
    ensures LoadKey(p, env) == LoadKey(p, env[PropertyNameEnv := other])
  {
    var env' := env[PropertyNameEnv := other];
    assert PropertyNameDot != PropertyNameEnv;
    assert Lookup(env', PropertyNameDot) == Lookup(env, PropertyNameDot);
  }
}
