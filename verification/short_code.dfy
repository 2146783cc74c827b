/** Recipe.save in backend/recipes/models.py: a recipe saved with a blank
    short_code gets secrets.token_urlsafe(4)[:6], redrawn until no stored
    recipe holds it; a recipe that already has a code keeps it. The random
    source is a supplied sequence of draws (four bytes each, what
    token_urlsafe(4) reads); running out of draws is an error here, where
    the source would keep drawing. */
module ShortCode {
  import opened Common
  import Schema

  type Byte = x: int | 0 <= x < 256

  /** The four random bytes of one token_urlsafe(4) call. */
  datatype Entropy = Entropy(b0: Byte, b1: Byte, b2: Byte, b3: Byte)

  /** The URL-safe base64 alphabet: A-Z, a-z, 0-9, '-' and '_'. */
  predicate IsUrlSafe(c: char) {
    ('A' <= c <= 'Z') || ('a' <= c <= 'z') || ('0' <= c <= '9') || c == '-' || c == '_'
  }

  /** The base64url character for a 6-bit value. */
  function SextetChar(v: nat): (c: char)
    requires v < 64
    ensures IsUrlSafe(c)
  {
    if v < 26 then ('A' as int + v) as char
    else if v < 52 then ('a' as int + (v - 26)) as char
    else if v < 62 then ('0' as int + (v - 52)) as char
    else if v == 62 then '-'
    else '_'
  }

  /** The 6-bit value of a base64url character. */
  function SextetValue(c: char): (v: nat)
    requires IsUrlSafe(c)
    ensures v < 64
  {
    if 'A' <= c <= 'Z' then c as int - 'A' as int
    else if 'a' <= c <= 'z' then c as int - 'a' as int + 26
    else if '0' <= c <= '9' then c as int - '0' as int + 52
    else if c == '-' then 62
    else 63
  }

  lemma SextetRoundTrip(v: nat)
    requires v < 64
    ensures SextetValue(SextetChar(v)) == v
  {
  }

  /** token_urlsafe(4): the base64url encoding of four bytes with the '=='
      padding stripped, six characters. */
  function TokenUrlSafe(e: Entropy): (t: string)
    ensures |t| == 6
    ensures forall i :: 0 <= i < |t| ==> IsUrlSafe(t[i])
  {
    [ SextetChar(e.b0 / 4),
      SextetChar((e.b0 % 4) * 16 + e.b1 / 16),
      SextetChar((e.b1 % 16) * 4 + e.b2 / 64),
      SextetChar(e.b2 % 64),
      SextetChar(e.b3 / 4),
      SextetChar((e.b3 % 4) * 16) ]
  }

  /** base64url decoding of a six-character token back to its four bytes. */
  function DecodeToken(t: string): Entropy
    requires |t| == 6
    requires forall i :: 0 <= i < |t| ==> IsUrlSafe(t[i])
  {
    var s0, s1, s2 := SextetValue(t[0]), SextetValue(t[1]), SextetValue(t[2]);
    var s3, s4, s5 := SextetValue(t[3]), SextetValue(t[4]), SextetValue(t[5]);
    Entropy(s0 * 4 + s1 / 16, (s1 % 16) * 16 + s2 / 4, (s2 % 4) * 64 + s3, s4 * 4 + s5 / 16)
  }

  /** The first byte: its top six bits, then its low two bits over the
      next byte's top four. */
  lemma FirstByteBack(b0: Byte, b1: Byte)
    ensures (b0 / 4) * 4 + ((b0 % 4) * 16 + b1 / 16) / 16 == b0
  {
    assert ((b0 % 4) * 16 + b1 / 16) / 16 == b0 % 4;
  }

  /** The second byte: split over the second and third sextets. */
  lemma SecondByteBack(b0: Byte, b1: Byte, b2: Byte)
    ensures (((b0 % 4) * 16 + b1 / 16) % 16) * 16 + ((b1 % 16) * 4 + b2 / 64) / 4 == b1
  {
    assert ((b0 % 4) * 16 + b1 / 16) % 16 == b1 / 16;
    assert ((b1 % 16) * 4 + b2 / 64) / 4 == b1 % 16;
  }

  /** The third byte: its top two bits end the third sextet. */
  lemma ThirdByteBack(b1: Byte, b2: Byte)
    ensures (((b1 % 16) * 4 + b2 / 64) % 4) * 64 + b2 % 64 == b2
  {
    assert ((b1 % 16) * 4 + b2 / 64) % 4 == b2 / 64;
  }

  /** The fourth byte: the fifth sextet and the padded sixth. */
  lemma FourthByteBack(b3: Byte)
    ensures (b3 / 4) * 4 + ((b3 % 4) * 16) / 16 == b3
  {
    assert ((b3 % 4) * 16) / 16 == b3 % 4;
  }

  /** Each character of a token reads back as the sextet it encodes. */
  lemma TokenSextets(e: Entropy)
    ensures var t := TokenUrlSafe(e);
      && SextetValue(t[0]) == e.b0 / 4
      && SextetValue(t[1]) == (e.b0 % 4) * 16 + e.b1 / 16
      && SextetValue(t[2]) == (e.b1 % 16) * 4 + e.b2 / 64
      && SextetValue(t[3]) == e.b2 % 64
      && SextetValue(t[4]) == e.b3 / 4
      && SextetValue(t[5]) == (e.b3 % 4) * 16
  {
    SextetRoundTrip(e.b0 / 4);
    SextetRoundTrip((e.b0 % 4) * 16 + e.b1 / 16);
    SextetRoundTrip((e.b1 % 16) * 4 + e.b2 / 64);
    SextetRoundTrip(e.b2 % 64);
    SextetRoundTrip(e.b3 / 4);
    SextetRoundTrip((e.b3 % 4) * 16);
  }

  /** Decoding a token gives back the bytes it was drawn from, so distinct
      draws give distinct tokens. */
  lemma DecodeTokenUrlSafe(e: Entropy)
    ensures DecodeToken(TokenUrlSafe(e)) == e
  {
    TokenSextets(e);
    FirstByteBack(e.b0, e.b1);
    SecondByteBack(e.b0, e.b1, e.b2);
    ThirdByteBack(e.b1, e.b2);
    FourthByteBack(e.b3);
  }

  /** One candidate code: token_urlsafe(4)[:6]. */
  function Candidate(e: Entropy): (code: string)
    ensures code == TokenUrlSafe(e)
  {
    Take(TokenUrlSafe(e), 6)
  }

  datatype SaveError = DrawsExhausted

  /** The short code Recipe.save stores: the current one when it is
      non-blank, otherwise the first candidate that no stored recipe holds. */
  function AssignedCode(existing: set<string>, current: string, draws: seq<Entropy>): (r: Result<string, SaveError>)
    ensures current != [] ==> r == Ok(current)
    ensures current == [] && r.Ok? ==>
      && r.value !in existing
      && 0 < |r.value| <= 6
      && exists i :: 0 <= i < |draws| && Candidate(draws[i]) == r.value
           && forall j :: 0 <= j < i ==> Candidate(draws[j]) in existing
    ensures current == [] && r.Err? ==> forall i :: 0 <= i < |draws| ==> Candidate(draws[i]) in existing
  {
    if current != [] then Ok(current)
    else if draws == [] then Err(DrawsExhausted)
    else if Candidate(draws[0]) !in existing then
      Ok(Candidate(draws[0]))
    else
      var r := AssignedCode(existing, current, draws[1..]);
      if r.Ok? then
        var i :| 0 <= i < |draws[1..]| && Candidate(draws[1..][i]) == r.value
                 && forall j :: 0 <= j < i ==> Candidate(draws[1..][j]) in existing;
        assert Candidate(draws[i + 1]) == r.value;
        assert forall j :: 0 <= j < i + 1 ==> Candidate(draws[j]) in existing by {
          forall j | 0 <= j < i + 1 ensures Candidate(draws[j]) in existing {
            if j > 0 { assert draws[j] == draws[1..][j - 1]; }
          }
        }
        r
      else
        assert forall i :: 0 <= i < |draws| ==> Candidate(draws[i]) in existing by {
          forall i | 0 <= i < |draws| ensures Candidate(draws[i]) in existing {
            if i > 0 { assert draws[i] == draws[1..][i - 1]; }
          }
        }
        r
  }

  /** The save loop as written: draw, test against the stored codes, retry. */
  method Save(existing: set<string>, current: string, draws: seq<Entropy>) returns (r: Result<string, SaveError>)
    ensures r == AssignedCode(existing, current, draws)
  {
    if current != [] {
      return Ok(current);
    }
    var n := 0;
    while n < |draws|
      invariant 0 <= n <= |draws|
      invariant AssignedCode(existing, current, draws[n..]) == AssignedCode(existing, current, draws)
    {
      var code := Candidate(draws[n]);
      if code !in existing {
        return Ok(code);
      }
      assert draws[n..][1..] == draws[n + 1..];
      n := n + 1;
    }
    return Err(DrawsExhausted);
  }

  /** The codes held by stored recipes. */
  function StoredCodes(db: Schema.Db): set<string> {
    set k | k in db.recipes :: db.recipes[k].shortCode
  }

  /** A recipe whose code is non-blank and held by no stored recipe can be
      stored without breaking the uniqueness of the codes. */
  lemma FreshCodeKeepsCodesUnique(db: Schema.Db, id: RecipeId, recipe: Schema.Recipe)
    requires Schema.ShortCodesValid(db)
    requires id !in db.recipes
    requires recipe.shortCode != [] && recipe.shortCode !in StoredCodes(db)
    ensures Schema.ShortCodesValid(db.(recipes := db.recipes[id := recipe]))
  {
    var d := db.(recipes := db.recipes[id := recipe]);
    forall a, b | a in d.recipes && b in d.recipes && a != b
      ensures d.recipes[a].shortCode != d.recipes[b].shortCode
    {
      if a == id {
        assert db.recipes[b].shortCode in StoredCodes(db);
      } else if b == id {
        assert db.recipes[a].shortCode in StoredCodes(db);
      }
    }
  }

  /** Storing a recipe whose code came out of AssignedCode keeps the stored
      codes non-blank and pairwise distinct. */
  lemma SaveKeepsCodesUnique(db: Schema.Db, id: RecipeId, recipe: Schema.Recipe, draws: seq<Entropy>)
    requires Schema.ShortCodesValid(db)
    requires id !in db.recipes
    requires AssignedCode(StoredCodes(db), recipe.shortCode, draws).Ok?
    requires recipe.shortCode == [] || recipe.shortCode !in StoredCodes(db)
    ensures Schema.ShortCodesValid(db.(recipes := db.recipes[id := recipe.(shortCode :=
              AssignedCode(StoredCodes(db), recipe.shortCode, draws).value)]))
  {
    var code := AssignedCode(StoredCodes(db), recipe.shortCode, draws).value;
    assert code != [] && code !in StoredCodes(db);
    FreshCodeKeepsCodesUnique(db, id, recipe.(shortCode := code));
  }
}
