/** Argon2id password hashes: the printed form, its decoder, and verification. */
module Password {
  import opened Wrappers
  import opened ByteStrings
  import opened Text
  import Base64

  const VERSION: nat := 19
  const MEMORY: nat := 19 * 1024
  const TIME: nat := 2
  const PARALLELISM: nat := 1
  const SALT_LENGTH: nat := 16
  const KEY_LENGTH: nat := 32
  const MAX_UINT32: nat := 0xffff_ffff
  const MAX_UINT8: nat := 0xff

  datatype Params = Params(memory: nat, time: nat, parallelism: nat)

  datatype Stored = Stored(params: Params, salt: Bytes, key: Bytes)

  datatype Error = InvalidHash | BadNumber(name: string) | BadSalt | BadKey

  /** Key derivation: password, salt, time, memory, parallelism, key length. Zero time or parallelism makes it panic. */
  type KeyFunction = (Bytes, Bytes, nat, nat, nat, nat) --> Bytes

  ghost predicate IsKeyFunction(kdf: KeyFunction) {
    forall p: Bytes, s: Bytes, t: nat, m: nat, par: nat, n: nat :: t >= 1 && par >= 1 ==>
      kdf.requires(p, s, t, m, par, n) && |kdf(p, s, t, m, par, n)| == n
  }

  predicate ValidParams(p: Params) {
    && 1 <= p.memory <= MAX_UINT32
    && 1 <= p.time <= MAX_UINT32
    && 1 <= p.parallelism <= MAX_UINT8
  }

  predicate ValidStored(d: Stored) {
    ValidParams(d.params) && d.salt != [] && d.key != []
  }

  // ------------------------------------------------------------------ printing

  function FormatParams(p: Params): string {
    "m=" + Decimal(p.memory) + ",t=" + Decimal(p.time) + ",p=" + Decimal(p.parallelism)
  }

  /** The printed form Hash builds. */
  function Format(d: Stored): string {
    "$argon2id$v=" + Decimal(VERSION) + "$" + FormatParams(d.params)
    + "$" + Base64.Encode(Base64.Standard, d.salt) + "$" + Base64.Encode(Base64.Standard, d.key)
  }

  function Hash(kdf: KeyFunction, plainText: Bytes, salt: Bytes): string
    requires IsKeyFunction(kdf) && |salt| == SALT_LENGTH
  {
    var key := kdf(plainText, salt, TIME, MEMORY, PARALLELISM, KEY_LENGTH);
    Format(Stored(Params(MEMORY, TIME, PARALLELISM), salt, key))
  }

  // ------------------------------------------------------------------ decoding

  function DecodeUintParam(s: string, name: string, max: nat): (r: Result<nat, Error>)
    ensures r.Success? ==> r.value <= max
  {
    match CutPrefix(s, name + "=")
    case None => Failure(InvalidHash)
    case Some(value) =>
      match ParseUint(value, max)
      case None => Failure(BadNumber(name))
      case Some(n) => Success(n)
  }

  function DecodeParams(s: string): (r: Result<Params, Error>)
    ensures r.Success? ==> ValidParams(r.value)
  {
    var parts := Split(s, ',');
    if |parts| != 3 then Failure(InvalidHash)
    else
      var memory := DecodeUintParam(parts[0], "m", MAX_UINT32);
      if memory.Failure? then Failure(memory.error)
      else
        var time := DecodeUintParam(parts[1], "t", MAX_UINT32);
        if time.Failure? then Failure(time.error)
        else
          var parallelism := DecodeUintParam(parts[2], "p", MAX_UINT8);
          if parallelism.Failure? then Failure(parallelism.error)
          else if memory.value == 0 || time.value == 0 || parallelism.value == 0 then Failure(InvalidHash)
          else Success(Params(memory.value, time.value, parallelism.value))
  }

  function Decode(hashed: string): (r: Result<Stored, Error>)
    ensures r.Success? ==> ValidStored(r.value)
  {
    var parts := Split(hashed, '$');
    if |parts| != 6 || parts[0] != "" || parts[1] != "argon2id" then Failure(InvalidHash)
    else if CutPrefix(parts[2], "v=") != Some(Decimal(VERSION)) then Failure(InvalidHash)
    else
      var params := DecodeParams(parts[3]);
      if params.Failure? then Failure(params.error)
      else
        var salt, key := Base64.Decode(Base64.Standard, parts[4]), Base64.Decode(Base64.Standard, parts[5]);
        if salt.None? then Failure(BadSalt)
        else if key.None? then Failure(BadKey)
        else if salt.value == [] || key.value == [] then Failure(InvalidHash)
        else Success(Stored(params.value, salt.value, key.value))
  }

  /** Verify; the key length is cast to an unsigned 32-bit number. */
  function Verify(kdf: KeyFunction, hashed: string, plainText: Bytes): Result<bool, Error>
    requires IsKeyFunction(kdf)
  {
    match Decode(hashed)
    case Failure(e) => Failure(e)
    case Success(d) =>
      var length := |d.key| % (MAX_UINT32 + 1);
      Success(d.key == kdf(plainText, d.salt, d.params.time, d.params.memory, d.params.parallelism, length))
  }

  // ---------------------------------------------------------------- properties

  lemma DecimalHasNoSeparator(n: nat)
    ensures ',' !in Decimal(n) && '$' !in Decimal(n)
  {
    var s := Decimal(n);
    assert forall i :: 0 <= i < |s| ==> IsDigit(s[i]);
  }

  lemma UintParamRoundTrip(name: string, n: nat, max: nat)
    requires n <= max
    ensures DecodeUintParam(name + "=" + Decimal(n), name, max) == Success(n)
  {
    var s := name + "=" + Decimal(n);
    assert name + "=" <= s && s[|name + "="|..] == Decimal(n);
    ParseDecimal(n, max);
  }

  /** The three settings as the parts between commas. */
  lemma ParamsParts(p: Params)
    ensures Split(FormatParams(p), ',') ==
            ["m=" + Decimal(p.memory), "t=" + Decimal(p.time), "p=" + Decimal(p.parallelism)]
    ensures '$' !in FormatParams(p)
  {
    var parts := ["m=" + Decimal(p.memory), "t=" + Decimal(p.time), "p=" + Decimal(p.parallelism)];
    DecimalHasNoSeparator(p.memory);
    DecimalHasNoSeparator(p.time);
    DecimalHasNoSeparator(p.parallelism);
    SplitThree(parts[0], parts[1], parts[2], ',');
    assert FormatParams(p) == parts[0] + "," + parts[1] + "," + parts[2];
  }

  lemma ParamsRoundTrip(p: Params)
    requires ValidParams(p)
    ensures DecodeParams(FormatParams(p)) == Success(p)
  {
    ParamsParts(p);
    UintParamRoundTrip("m", p.memory, MAX_UINT32);
    UintParamRoundTrip("t", p.time, MAX_UINT32);
    UintParamRoundTrip("p", p.parallelism, MAX_UINT8);
  }

  lemma FormatParts(d: Stored)
    ensures Split(Format(d), '$') ==
            ["", "argon2id", "v=" + Decimal(VERSION), FormatParams(d.params),
             Base64.Encode(Base64.Standard, d.salt), Base64.Encode(Base64.Standard, d.key)]
  {
    hide Base64.Encode, Decimal, FormatParams, Split;
    var version, params := "v=" + Decimal(VERSION), FormatParams(d.params);
    var salt, key := Base64.Encode(Base64.Standard, d.salt), Base64.Encode(Base64.Standard, d.key);
    DecimalHasNoSeparator(VERSION);
    ParamsParts(d.params);
    Base64.RoundTrip(Base64.Standard, d.salt);
    Base64.RoundTrip(Base64.Standard, d.key);
    Base64.PlainHasNoSeparator(Base64.Standard, salt);
    Base64.PlainHasNoSeparator(Base64.Standard, key);
    SplitThree("", "argon2id", version, '$');
    SplitThree(params, salt, key, '$');
    var left, right := "" + "$" + "argon2id" + "$" + version, params + "$" + salt + "$" + key;
    SplitConcat(left, right, '$');
    FormatShape(Decimal(VERSION), params, salt, key);
  }

  lemma FormatShape(version: string, params: string, salt: string, key: string)
    ensures "$argon2id$v=" + version + "$" + params + "$" + salt + "$" + key ==
            ("" + "$" + "argon2id" + "$" + ("v=" + version)) + "$" + (params + "$" + salt + "$" + key)
  {
    assert "$argon2id$v=" + version == "" + "$" + "argon2id" + "$" + ("v=" + version);
  }

  /** Decoding undoes printing, for every setting that fits its field and every non-empty salt and key. */
  lemma DecodeFormat(d: Stored)
    requires ValidStored(d)
    ensures Decode(Format(d)) == Success(d)
  {
    hide Format, FormatParams, Base64.Encode, Base64.Decode;
    FormatParts(d);
    var parts := Split(Format(d), '$');
    assert parts[2][|"v="|..] == Decimal(VERSION);
    ParamsRoundTrip(d.params);
    Base64.RoundTrip(Base64.Standard, d.salt);
    Base64.RoundTrip(Base64.Standard, d.key);
  }

  /** Printing a decoded hash gives a hash that decodes the same, whatever spelling was stored. */
  lemma Normalises(hashed: string)
    requires Decode(hashed).Success?
    ensures Decode(Format(Decode(hashed).value)) == Decode(hashed)
  {
    DecodeFormat(Decode(hashed).value);
  }

  /** Printed hashes are equal only for equal settings, salt and key. */
  lemma FormatInjective(d: Stored, e: Stored)
    requires ValidStored(d) && ValidStored(e) && Format(d) == Format(e)
    ensures d == e
  {
    DecodeFormat(d);
    DecodeFormat(e);
  }

  /**
   A hash verifies its own password, and another password exactly when the two
   derive the same key under the stored salt.
   */
  lemma VerifyHash(kdf: KeyFunction, plainText: Bytes, other: Bytes, salt: Bytes)
    requires IsKeyFunction(kdf) && |salt| == SALT_LENGTH
    ensures Verify(kdf, Hash(kdf, plainText, salt), plainText) == Success(true)
    ensures Verify(kdf, Hash(kdf, plainText, salt), other) ==
            Success(kdf(plainText, salt, TIME, MEMORY, PARALLELISM, KEY_LENGTH)
                    == kdf(other, salt, TIME, MEMORY, PARALLELISM, KEY_LENGTH))
  {
    hide Decode, Format;
    var key := kdf(plainText, salt, TIME, MEMORY, PARALLELISM, KEY_LENGTH);
    DecodeFormat(Stored(Params(MEMORY, TIME, PARALLELISM), salt, key));
  }

  /**
   For every stored hash, whatever its settings: a password verifies exactly
   when the stored settings, salt and key length derive the stored key from it.
   */
  lemma VerifyStored(kdf: KeyFunction, d: Stored, plainText: Bytes)
    requires IsKeyFunction(kdf) && ValidStored(d) && |d.key| <= MAX_UINT32
    ensures Verify(kdf, Format(d), plainText) ==
            Success(d.key == kdf(plainText, d.salt, d.params.time, d.params.memory, d.params.parallelism, |d.key|))
  {
    hide Decode, Format;
    DecodeFormat(d);
  }

  /** The printed form of a new hash, letter by letter up to the salt. */
  lemma HashText(kdf: KeyFunction, plainText: Bytes, salt: Bytes)
    requires IsKeyFunction(kdf) && |salt| == SALT_LENGTH
    ensures Hash(kdf, plainText, salt) ==
            "$argon2id$v=19$" + "m=19456,t=2,p=1" + "$" + Base64.Encode(Base64.Standard, salt) + "$"
            + Base64.Encode(Base64.Standard, kdf(plainText, salt, 2, 19456, 1, 32))
  {
    hide Base64.Encode, Decimal, FormatParams;
    var salted := Base64.Encode(Base64.Standard, salt);
    var key := Base64.Encode(Base64.Standard, kdf(plainText, salt, 2, 19456, 1, 32));
    DecimalVersion();
    TodaysParams();
    HashedShape("m=19456,t=2,p=1", salted, key);
  }

  lemma TodaysParams()
    ensures FormatParams(Params(MEMORY, TIME, PARALLELISM)) == "m=19456,t=2,p=1"
  {
    DecimalMemory();
    assert Decimal(2) == "2" && Decimal(1) == "1";
    hide Decimal;
  }

  lemma DecimalMemory()
    ensures Decimal(19456) == "19456"
  {
    assert Decimal(1) == "1";
    hide Decimal;
    DecimalNext(1, 9);
    DecimalNext(19, 4);
    DecimalNext(194, 5);
    DecimalNext(1945, 6);
    assert "1" + "9" == "19" && "19" + "4" == "194" && "194" + "5" == "1945";
  }

  lemma DecimalVersion()
    ensures Decimal(VERSION) == "19"
  {
  }

  // ------------------------------------------------------- what is accepted

  function ParamsText(m: string, t: string, p: string): string {
    "m=" + m + ",t=" + t + ",p=" + p
  }

  ghost predicate SpellsParams(s: string, params: Params, m: string, t: string, p: string) {
    && s == ParamsText(m, t, p)
    && ParseUint(m, MAX_UINT32) == Some(params.memory)
    && ParseUint(t, MAX_UINT32) == Some(params.time)
    && ParseUint(p, MAX_UINT8) == Some(params.parallelism)
  }

  lemma NumberHasNoSeparator(s: string, max: nat)
    requires ParseUint(s, max).Some?
    ensures ',' !in s && '$' !in s
  {
    DigitsOnly(s);
  }

  lemma ParamsTextParts(m: string, t: string, p: string)
    requires ',' !in m && ',' !in t && ',' !in p
    ensures Split(ParamsText(m, t, p), ',') == ["m=" + m, "t=" + t, "p=" + p]
  {
    SplitThree("m=" + m, "t=" + t, "p=" + p, ',');
    assert ParamsText(m, t, p) == "m=" + m + "," + ("t=" + t) + "," + ("p=" + p);
  }

  lemma UintParamExact(s: string, name: string, max: nat, n: nat)
    ensures DecodeUintParam(s, name, max) == Success(n) <==>
      exists digits :: s == name + "=" + digits && ParseUint(digits, max) == Some(n)
  {
    var prefix := name + "=";
    if prefix <= s {
      assert s == prefix + s[|prefix|..];
    }
    forall digits | s == prefix + digits ensures prefix <= s && s[|prefix|..] == digits {
    }
  }

  /** The settings are accepted exactly in the form m=..,t=..,p=.. with three numbers that fit and are not zero. */
  lemma DecodeParamsExact(s: string, params: Params)
    ensures DecodeParams(s) == Success(params) <==>
      ValidParams(params) && exists m, t, p :: SpellsParams(s, params, m, t, p)
  {
    hide DecodeUintParam, ParseUint, Split;
    var parts := Split(s, ',');
    if ValidParams(params) && exists m, t, p :: SpellsParams(s, params, m, t, p) {
      var m, t, p :| SpellsParams(s, params, m, t, p);
      NumberHasNoSeparator(m, MAX_UINT32);
      NumberHasNoSeparator(t, MAX_UINT32);
      NumberHasNoSeparator(p, MAX_UINT8);
      ParamsTextParts(m, t, p);
      UintParamExact(parts[0], "m", MAX_UINT32, params.memory);
      UintParamExact(parts[1], "t", MAX_UINT32, params.time);
      UintParamExact(parts[2], "p", MAX_UINT8, params.parallelism);
    }
    if DecodeParams(s) == Success(params) {
      ParamsSpelled(s, params);
    }
  }

  lemma ParamsSpelled(s: string, params: Params)
    requires DecodeParams(s) == Success(params)
    ensures exists m, t, p :: SpellsParams(s, params, m, t, p)
  {
    hide DecodeUintParam, ParseUint, Split, ParamsText, Join;
    var parts := Split(s, ',');
    UintParamExact(parts[0], "m", MAX_UINT32, params.memory);
    UintParamExact(parts[1], "t", MAX_UINT32, params.time);
    UintParamExact(parts[2], "p", MAX_UINT8, params.parallelism);
    var m :| parts[0] == "m" + "=" + m && ParseUint(m, MAX_UINT32) == Some(params.memory);
    var t :| parts[1] == "t" + "=" + t && ParseUint(t, MAX_UINT32) == Some(params.time);
    var p :| parts[2] == "p" + "=" + p && ParseUint(p, MAX_UINT8) == Some(params.parallelism);
    JoinUndoesSplit(s, ',');
    JoinThree(parts[0], parts[1], parts[2], ',');
    assert parts == [parts[0], parts[1], parts[2]];
    ParamsTextJoin(m, t, p);
    assert SpellsParams(s, params, m, t, p);
  }

  lemma ParamsTextJoin(m: string, t: string, p: string)
    ensures ParamsText(m, t, p) == ("m" + "=" + m) + "," + ("t" + "=" + t) + "," + ("p" + "=" + p)
  {
    assert "m" + "=" == "m=" && "t" + "=" == "t=" && "p" + "=" == "p=";
    assert ("m=" + m) + "," + ("t=" + t) == "m=" + m + ",t=" + t;
  }

  function HashedText(params: string, salt: string, key: string): string {
    "$argon2id$v=19$" + params + "$" + salt + "$" + key
  }

  ghost predicate Spells(hashed: string, d: Stored, params: string, salt: string, key: string) {
    && hashed == HashedText(params, salt, key)
    && DecodeParams(params) == Success(d.params)
    && Base64.Decode(Base64.Standard, salt) == Some(d.salt)
    && Base64.Decode(Base64.Standard, key) == Some(d.key)
  }

  lemma HashedTextParts(params: string, salt: string, key: string)
    requires '$' !in params && '$' !in salt && '$' !in key
    ensures Split(HashedText(params, salt, key), '$') == ["", "argon2id", "v=19", params, salt, key]
  {
    hide Split;
    SplitThree("", "argon2id", "v=19", '$');
    SplitThree(params, salt, key, '$');
    SplitConcat("" + "$" + "argon2id" + "$" + "v=19", params + "$" + salt + "$" + key, '$');
    FormatShape("19", params, salt, key);
    assert "$argon2id$v=" + "19" == "$argon2id$v=19";
    assert "v=" + "19" == "v=19";
    HashedShape(params, salt, key);
  }

  lemma HashedShape(params: string, salt: string, key: string)
    ensures HashedText(params, salt, key) == "$argon2id$v=" + "19" + "$" + params + "$" + salt + "$" + key
  {
    assert "$argon2id$v=" + "19" + "$" == "$argon2id$v=19$";
  }

  /**
   A hash is accepted exactly in the form $argon2id$v=19$settings$salt$key with
   settings that are accepted and a salt and key that decode to some bytes.
   */
  lemma DecodeExact(hashed: string, d: Stored)
    ensures Decode(hashed) == Success(d) <==>
      ValidStored(d) && exists params, salt, key :: Spells(hashed, d, params, salt, key)
  {
    if ValidStored(d) && exists params, salt, key :: Spells(hashed, d, params, salt, key) {
      var params, salt, key :| Spells(hashed, d, params, salt, key);
      SpelledIsAccepted(hashed, d, params, salt, key);
    }
    if Decode(hashed) == Success(d) {
      AcceptedIsSpelled(hashed, d);
    }
  }

  lemma SpelledIsAccepted(hashed: string, d: Stored, params: string, salt: string, key: string)
    requires ValidStored(d) && Spells(hashed, d, params, salt, key)
    ensures Decode(hashed) == Success(d)
  {
    ParamsHaveNoSeparator(params, d.params);
    Base64.AcceptedHasNoSeparator(Base64.Standard, salt);
    Base64.AcceptedHasNoSeparator(Base64.Standard, key);
    hide DecodeParams, Split, Base64.Decode, HashedText, Decimal;
    HashedTextParts(params, salt, key);
    DecimalVersion();
    assert "v=19"[|"v="|..] == "19";
  }

  lemma ParamsHaveNoSeparator(s: string, params: Params)
    requires DecodeParams(s) == Success(params)
    ensures '$' !in s
  {
    hide DecodeParams, ParseUint;
    DecodeParamsExact(s, params);
    var m, t, p :| SpellsParams(s, params, m, t, p);
    NumberHasNoSeparator(m, MAX_UINT32);
    NumberHasNoSeparator(t, MAX_UINT32);
    NumberHasNoSeparator(p, MAX_UINT8);
  }

  lemma AcceptedIsSpelled(hashed: string, d: Stored)
    requires Decode(hashed) == Success(d)
    ensures exists params, salt, key :: Spells(hashed, d, params, salt, key)
  {
    hide DecodeParams, Split, Base64.Decode, Decimal;
    var parts := Split(hashed, '$');
    DecimalVersion();
    JoinUndoesSplit(hashed, '$');
    VersionPart(parts[2]);
    JoinSix(parts);
    assert Spells(hashed, d, parts[3], parts[4], parts[5]);
  }

  lemma VersionPart(s: string)
    requires CutPrefix(s, "v=") == Some("19")
    ensures s == "v=19"
  {
    assert s == "v=" + s[|"v="|..];
  }

  lemma JoinSix(parts: seq<string>)
    requires |parts| == 6 && parts[0] == "" && parts[1] == "argon2id" && parts[2] == "v=19"
    ensures Join(parts, '$') == HashedText(parts[3], parts[4], parts[5])
  {
    var left, right := parts[..3], parts[3..];
    assert left == ["", "argon2id", "v=19"] && right == [parts[3], parts[4], parts[5]] && parts == left + right;
    JoinThree("", "argon2id", "v=19", '$');
    JoinThree(parts[3], parts[4], parts[5], '$');
    JoinConcat(left, right, '$');
    hide Join, HashedText;
    assert "v=" + "19" == "v=19";
    FormatShape("19", parts[3], parts[4], parts[5]);
    HashedShape(parts[3], parts[4], parts[5]);
  }
}
