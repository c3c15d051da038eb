/** Signed continuation tokens: payload.kind.mac. */
module Cursor {
  import opened Wrappers
  import opened ByteStrings
  import opened Text
  import Base64

  const MIN_SECRET_LENGTH: nat := 32

  datatype Codec = Codec(secret: Bytes)

  datatype Error = SecretTooShort | CodecRequired | InvalidKind | Invalid | MarshalFailed

  /** A serialisation of payloads; Lossless says which payloads survive it. */
  datatype Serial<!T> = Serial(marshal: T -> Option<Bytes>, unmarshal: Bytes -> Option<T>)

  ghost predicate Lossless<T>(json: Serial<T>, payload: T) {
    json.marshal(payload).Some? && json.unmarshal(json.marshal(payload).value) == Some(payload)
  }

  /** The keyed digest of a text; it is never empty. */
  type Digest = (Bytes, string) -> Bytes

  ghost predicate IsDigest(hmac: Digest) {
    forall secret, text :: |hmac(secret, text)| == 32
  }

  function NewCodec(secret: Bytes): (r: Result<Codec, Error>)
    ensures r.Success? <==> |secret| >= MIN_SECRET_LENGTH
    ensures r.Success? ==> r.value.secret == secret
  {
    if |secret| < MIN_SECRET_LENGTH then Failure(SecretTooShort) else Success(Codec(secret))
  }

  predicate ValidKind(kind: string) {
    kind != "" && '.' !in kind
  }

  function SignedText(p: string, kind: string): string {
    p + "." + kind
  }

  function Mac(c: Codec, hmac: Digest, p: string, kind: string): string {
    Base64.Encode(Base64.UrlSafe, hmac(c.secret, SignedText(p, kind)))
  }

  function Token(p: string, kind: string, h: string): string {
    p + "." + kind + "." + h
  }

  function Encode<T>(codec: Option<Codec>, hmac: Digest, json: Serial<T>, kind: string, payload: T):
    Result<string, Error>
  {
    if codec.None? then Failure(CodecRequired)
    else if !ValidKind(kind) then Failure(InvalidKind)
    else
      match json.marshal(payload)
      case None => Failure(MarshalFailed)
      case Some(raw) =>
        var p := Base64.Encode(Base64.UrlSafe, raw);
        Success(Token(p, kind, Mac(codec.value, hmac, p, kind)))
  }

  function SplitToken(token: string): Result<(string, string, string), Error> {
    var parts := Split(token, '.');
    if |parts| != 3 || parts[0] == "" || parts[1] == "" || parts[2] == "" then Failure(Invalid)
    else Success((parts[0], parts[1], parts[2]))
  }

  /** No payload and no error for the empty token. */
  function Decode<T>(codec: Option<Codec>, hmac: Digest, json: Serial<T>, kind: string, token: string):
    Result<Option<T>, Error>
  {
    if token == "" then Success(None)
    else if codec.None? then Failure(CodecRequired)
    else if !ValidKind(kind) then Failure(InvalidKind)
    else
      match SplitToken(token)
      case Failure(e) => Failure(e)
      case Success((p, k, h)) =>
        if k != kind then Failure(Invalid)
        else if h != Mac(codec.value, hmac, p, k) then Failure(Invalid)
        else
          match Base64.Decode(Base64.UrlSafe, p)
          case None => Failure(Invalid)
          case Some(raw) =>
            match json.unmarshal(raw)
            case None => Failure(Invalid)
            case Some(payload) => Success(Some(payload))
  }

  // ---------------------------------------------------------------- properties

  lemma MacIsPlain(c: Codec, hmac: Digest, p: string, kind: string)
    requires IsDigest(hmac)
    ensures '.' !in Mac(c, hmac, p, kind) && Mac(c, hmac, p, kind) != ""
  {
    Base64.RoundTrip(Base64.UrlSafe, hmac(c.secret, SignedText(p, kind)));
    Base64.PlainHasNoSeparator(Base64.UrlSafe, Mac(c, hmac, p, kind));
  }

  /** A token splits exactly into the three non-empty dotless parts it was put together from. */
  lemma SplitTokenExact(token: string, p: string, k: string, h: string)
    ensures SplitToken(token) == Success((p, k, h)) <==>
            && token == Token(p, k, h) && p != "" && k != "" && h != ""
            && '.' !in p && '.' !in k && '.' !in h
  {
    if '.' !in p && '.' !in k && '.' !in h {
      SplitThree(p, k, h, '.');
    }
    JoinUndoesSplit(token, '.');
    var parts := Split(token, '.');
    if |parts| == 3 {
      assert parts[0] in parts && parts[1] in parts && parts[2] in parts;
      assert parts == [parts[0], parts[1], parts[2]];
      JoinThree(parts[0], parts[1], parts[2], '.');
    }
  }

  lemma TokenOf<T>(c: Codec, hmac: Digest, json: Serial<T>, kind: string, payload: T)
    requires IsDigest(hmac) && ValidKind(kind) && json.marshal(payload).Some?
    ensures var raw := json.marshal(payload).value;
            var p := Base64.Encode(Base64.UrlSafe, raw);
            var token := Encode(Some(c), hmac, json, kind, payload).value;
            && token == Token(p, kind, Mac(c, hmac, p, kind))
            && Base64.Decode(Base64.UrlSafe, p) == Some(raw)
            && SplitToken(token) ==
               if raw != [] then Success((p, kind, Mac(c, hmac, p, kind))) else Failure(Invalid)
  {
    hide Split, Mac, Base64.Encode, Base64.Decode;
    var raw := json.marshal(payload).value;
    var p := Base64.Encode(Base64.UrlSafe, raw);
    var h := Mac(c, hmac, p, kind);
    Base64.RoundTrip(Base64.UrlSafe, raw);
    Base64.PlainHasNoSeparator(Base64.UrlSafe, p);
    MacIsPlain(c, hmac, p, kind);
    SplitThree(p, kind, h, '.');
  }

  /** Encode succeeds exactly with a codec, a non-empty dotless kind and a payload that serialises; what it writes. */
  lemma EncodeText<T>(codec: Option<Codec>, hmac: Digest, json: Serial<T>, kind: string, payload: T)
    ensures Encode(codec, hmac, json, kind, payload).Success? <==>
      codec.Some? && kind != "" && '.' !in kind && json.marshal(payload).Some?
    ensures Encode(codec, hmac, json, kind, payload).Success? ==>
      var p := Base64.Encode(Base64.UrlSafe, json.marshal(payload).value);
      var h := Base64.Encode(Base64.UrlSafe, hmac(codec.value.secret, p + "." + kind));
      Encode(codec, hmac, json, kind, payload) == Success(p + "." + kind + "." + h)
  {
  }

  /**
   A token of one codec opens under another exactly when the two secrets give
   the same digest of its signed text; otherwise it is refused.
   */
  lemma OtherSecret<T>(c: Codec, d: Codec, hmac: Digest, json: Serial<T>, kind: string, payload: T)
    requires IsDigest(hmac) && ValidKind(kind) && Lossless(json, payload) && json.marshal(payload).value != []
    ensures var token := Encode(Some(d), hmac, json, kind, payload).value;
      var text := Base64.Encode(Base64.UrlSafe, json.marshal(payload).value) + "." + kind;
      Decode(Some(c), hmac, json, kind, token) ==
      if hmac(c.secret, text) == hmac(d.secret, text) then Success(Some(payload)) else Failure(Invalid)
  {
    hide SplitToken, Base64.Encode, Base64.Decode;
    TokenOf(d, hmac, json, kind, payload);
    var text := Base64.Encode(Base64.UrlSafe, json.marshal(payload).value) + "." + kind;
    Base64.RoundTrip(Base64.UrlSafe, hmac(c.secret, text));
    Base64.RoundTrip(Base64.UrlSafe, hmac(d.secret, text));
  }

  /** Only the empty token gives neither a payload nor an error; a missing codec and a bad kind are reported as such. */
  lemma DecodeRefusals<T>(codec: Option<Codec>, hmac: Digest, json: Serial<T>, kind: string, token: string)
    ensures Decode(codec, hmac, json, kind, token) == Success(None) <==> token == ""
    ensures Decode(codec, hmac, json, kind, token) == Failure(CodecRequired) <==> token != "" && codec.None?
    ensures Decode(codec, hmac, json, kind, token) == Failure(InvalidKind) <==>
      token != "" && codec.Some? && (kind == "" || '.' in kind)
  {
    hide Split, Mac, Base64.Decode;
  }

  /**
   A token opens under its own codec and kind to the payload it was made from,
   exactly when the payload serialises to at least one byte.
   */
  lemma RoundTrip<T>(c: Codec, hmac: Digest, json: Serial<T>, kind: string, payload: T)
    requires IsDigest(hmac) && ValidKind(kind) && Lossless(json, payload)
    ensures var token := Encode(Some(c), hmac, json, kind, payload);
            && token.Success? && token.value != ""
            && (Decode(Some(c), hmac, json, kind, token.value) == Success(Some(payload))
                <==> json.marshal(payload).value != [])
  {
    hide SplitToken, Mac, Base64.Encode, Base64.Decode;
    TokenOf(c, hmac, json, kind, payload);
  }

  /** Under any other valid kind a token is refused. */
  lemma OtherKindRefused<T>(c: Codec, hmac: Digest, json: Serial<T>, kind: string, other: string, payload: T)
    requires IsDigest(hmac) && ValidKind(kind) && ValidKind(other) && other != kind && json.marshal(payload).Some?
    ensures Decode(Some(c), hmac, json, other, Encode(Some(c), hmac, json, kind, payload).value) == Failure(Invalid)
  {
    hide SplitToken, Mac, Base64.Encode, Base64.Decode;
    TokenOf(c, hmac, json, kind, payload);
  }

  /** What Decode accepts: a payload comes out of exactly the tokens signed for that kind. */
  lemma DecodeExact<T>(c: Codec, hmac: Digest, json: Serial<T>, kind: string, token: string, payload: T)
    requires IsDigest(hmac)
    ensures Decode(Some(c), hmac, json, kind, token) == Success(Some(payload)) <==>
            && ValidKind(kind)
            && exists p: string, raw: Bytes ::
                 && token == Token(p, kind, Mac(c, hmac, p, kind)) && p != "" && '.' !in p
                 && Base64.Decode(Base64.UrlSafe, p) == Some(raw) && json.unmarshal(raw) == Some(payload)
  {
    hide SplitToken, Mac, Base64.Decode;
    if ValidKind(kind) && exists p: string, raw: Bytes ::
         && token == Token(p, kind, Mac(c, hmac, p, kind)) && p != "" && '.' !in p
         && Base64.Decode(Base64.UrlSafe, p) == Some(raw) && json.unmarshal(raw) == Some(payload)
    {
      var p: string, raw: Bytes :|
        && token == Token(p, kind, Mac(c, hmac, p, kind)) && p != "" && '.' !in p
        && Base64.Decode(Base64.UrlSafe, p) == Some(raw) && json.unmarshal(raw) == Some(payload);
      MacIsPlain(c, hmac, p, kind);
      SplitTokenExact(token, p, kind, Mac(c, hmac, p, kind));
    }
    if Decode(Some(c), hmac, json, kind, token) == Success(Some(payload)) {
      var (p, k, h) := SplitToken(token).value;
      SplitTokenExact(token, p, k, h);
    }
  }

  /** The signed text names its payload text and its kind in one way only. */
  lemma SignedTextUnique(p: string, kind: string, p': string, kind': string)
    requires '.' !in p && '.' !in p' && SignedText(p, kind) == SignedText(p', kind')
    ensures p == p' && kind == kind'
  {
    CutUnique(p, kind, p', kind', '.');
  }

  /**
   An accepted token whose digest is over a text that was signed for some
   payload is that very token, is opened under that payload's kind, and gives
   that payload back: a digest cannot be moved to another payload or kind.
   */
  lemma AcceptedIsIssued<T>(c: Codec, hmac: Digest, json: Serial<T>, kind: string, payload: T,
                            token: string, kind': string)
    requires IsDigest(hmac) && ValidKind(kind) && Lossless(json, payload)
    requires SplitToken(token).Success? && Decode(Some(c), hmac, json, kind', token).Success?
    requires SignedText(SplitToken(token).value.0, kind') ==
             SignedText(Base64.Encode(Base64.UrlSafe, json.marshal(payload).value), kind)
    ensures kind' == kind
    ensures token == Encode(Some(c), hmac, json, kind, payload).value
    ensures Decode(Some(c), hmac, json, kind', token) == Success(Some(payload))
  {
    hide SplitToken, Split, Mac, Base64.Encode, Base64.Decode;
    var raw := json.marshal(payload).value;
    var q := Base64.Encode(Base64.UrlSafe, raw);
    Base64.RoundTrip(Base64.UrlSafe, raw);
    Base64.PlainHasNoSeparator(Base64.UrlSafe, q);
    var (p, k, h) := SplitToken(token).value;
    SplitTokenExact(token, p, k, h);
    SignedTextUnique(p, kind', q, kind);
  }

  // -------------------------------------------------------------------- paging

  function Trim<T>(items: seq<T>, limit: int): (seq<T>, bool) {
    var most := if limit < 0 then 0 else limit;
    if |items| > most then (items[..most], true) else (items, false)
  }

  /** Never more than the limit, none for a negative one, and more to come exactly when something was cut. */
  lemma TrimExact<T>(items: seq<T>, limit: int)
    ensures var (page, more) := Trim(items, limit);
      && page <= items && |page| <= (if limit < 0 then 0 else limit)
      && (more <==> page != items) && (!more || |page| == limit || (limit < 0 && page == []))
  {
  }

  /** The pages of a list: each query asks for one row more than the page holds. */
  function Pages<T>(list: seq<T>, limit: nat): seq<seq<T>>
    requires limit > 0
    decreases |list|
  {
    var rows := if |list| > limit + 1 then list[..limit + 1] else list;
    var (page, more) := Trim(rows, limit);
    [page] + if more then Pages(list[|page|..], limit) else []
  }

  function Flatten<T>(pages: seq<seq<T>>): seq<T> {
    if pages == [] then [] else pages[0] + Flatten(pages[1..])
  }

  lemma FirstPage<T>(list: seq<T>, limit: nat)
    requires limit > 0
    ensures Pages(list, limit) ==
            if |list| > limit then [list[..limit]] + Pages(list[limit..], limit) else [list]
  {
    if |list| > limit + 1 {
      assert list[..limit + 1][..limit] == list[..limit];
    }
  }

  /** Following the pages to the end gives every row once and in order, in full pages up to the last. */
  lemma {:induction false} PagesCover<T>(list: seq<T>, limit: nat)
    requires limit > 0
    ensures Flatten(Pages(list, limit)) == list
    ensures var pages := Pages(list, limit);
            && |pages| > 0 && |pages[|pages| - 1]| <= limit && (list != [] ==> pages[|pages| - 1] != [])
            && forall i :: 0 <= i < |pages| - 1 ==> |pages[i]| == limit
    decreases |list|
  {
    hide Pages;
    FirstPage(list, limit);
    var pages := Pages(list, limit);
    assert pages[..] == pages;
    if |list| > limit {
      var rest := Pages(list[limit..], limit);
      PagesCover(list[limit..], limit);
      assert pages[1..] == rest;
      assert pages[|pages| - 1] == rest[|rest| - 1];
      assert forall i :: 1 <= i < |pages| - 1 ==> pages[i] == rest[i - 1];
      assert list == list[..limit] + list[limit..];
    } else {
      assert Flatten(pages[1..]) == [];
    }
  }
}
