/** One celestial-body record and its line on the wire: the parsers
    `parse_star_parameters` / `parse_planet_parameters` and the line the
    writer and the statistics log emit for a body. */
module Bodies {
  import opened Wrappers
  import opened Text
  import opened Numbers

  /** The public attributes of a body object that the wire format touches.
      `kind` is the object's `type` attribute: the parsers set it to `star`
      or `planet`, while the writer only asks whether it is `star`. */
  datatype Body = Body(kind: string, radius: Decimal, color: string, mass: Decimal,
                       x: Decimal, y: Decimal, vx: Decimal, vy: Decimal)

  /** Why a record line cannot be read: the token list has no field at
      `index` (Python's IndexError), or `float()` rejects `token` (its
      ValueError). */
  datatype FieldError = Missing(index: nat) | NotANumber(token: string)

  /** `parametrs[i]`. */
  function Field(tokens: seq<string>, i: nat): Result<string, FieldError> {
    if i < |tokens| then Ok(tokens[i]) else Err(Missing(i))
  }

  /** `float(parametrs[i])`: the index is checked before the conversion. */
  function NumberField(tokens: seq<string>, i: nat): Result<Decimal, FieldError> {
    var t :- Field(tokens, i);
    match ParseNumber(t)
    case Some(v) => Ok(v)
    case None => Err(NotANumber(t))
  }

  /** `float()` accepts the token. */
  predicate Numeric(t: string) {
    ParseNumber(t).Some?
  }

  /** The tokens the parsers read: the whole line lower-cased, then split
      on whitespace runs. */
  function RecordTokens(line: string): seq<string> {
    Split(Lower(line))
  }

  /** `parse_star_parameters` (kind `star`) and `parse_planet_parameters`
      (kind `planet`): the line is lower-cased and split, then its fields
      are read. */
  function ParseRecord(line: string, kind: string): (r: Result<Body, FieldError>)
    ensures var p := RecordTokens(line);
            r.Ok? <==> |p| >= 8 && Numeric(p[1]) && Numeric(p[3]) && Numeric(p[4])
                       && Numeric(p[5]) && Numeric(p[6]) && Numeric(p[7])
    ensures var p := RecordTokens(line);
            r.Ok? ==> r.value == Body(kind, ParseNumber(p[1]).value, p[2], ParseNumber(p[3]).value,
                                      ParseNumber(p[4]).value, ParseNumber(p[5]).value,
                                      ParseNumber(p[6]).value, ParseNumber(p[7]).value)
  {
    ParseFields(RecordTokens(line), kind)
  }

  /** The field reads of both parsers on the token list `p`: the kind is
      set first, then radius, colour, mass, x, y, vx and vy are taken from
      tokens 1 to 7 in that order, the first missing token or rejected
      number ending the parse. Tokens after the eighth are never looked
      at. */
  function ParseFields(p: seq<string>, kind: string): (r: Result<Body, FieldError>)
    ensures r.Ok? <==> |p| >= 8 && Numeric(p[1]) && Numeric(p[3]) && Numeric(p[4])
                       && Numeric(p[5]) && Numeric(p[6]) && Numeric(p[7])
    ensures r.Ok? ==> r.value == Body(kind, ParseNumber(p[1]).value, p[2], ParseNumber(p[3]).value,
                                      ParseNumber(p[4]).value, ParseNumber(p[5]).value,
                                      ParseNumber(p[6]).value, ParseNumber(p[7]).value)
    ensures !FieldReads(p, 1) ==> r == Err(FieldFailure(p, 1))
    ensures FieldReads(p, 1) && !FieldReads(p, 2) ==> r == Err(FieldFailure(p, 2))
    ensures FieldReads(p, 1) && FieldReads(p, 2) && !FieldReads(p, 3) ==> r == Err(FieldFailure(p, 3))
    ensures FieldReads(p, 1) && FieldReads(p, 2) && FieldReads(p, 3) && !FieldReads(p, 4)
            ==> r == Err(FieldFailure(p, 4))
    ensures (FieldReads(p, 1) && FieldReads(p, 2) && FieldReads(p, 3) && FieldReads(p, 4)
             && !FieldReads(p, 5))
            ==> r == Err(FieldFailure(p, 5))
    ensures (FieldReads(p, 1) && FieldReads(p, 2) && FieldReads(p, 3) && FieldReads(p, 4)
             && FieldReads(p, 5) && !FieldReads(p, 6))
            ==> r == Err(FieldFailure(p, 6))
    ensures (FieldReads(p, 1) && FieldReads(p, 2) && FieldReads(p, 3) && FieldReads(p, 4)
             && FieldReads(p, 5) && FieldReads(p, 6) && !FieldReads(p, 7))
            ==> r == Err(FieldFailure(p, 7))
  {
    var radius :- NumberField(p, 1);
    var color :- Field(p, 2);
    var mass :- NumberField(p, 3);
    var x :- NumberField(p, 4);
    var y :- NumberField(p, 5);
    var vx :- NumberField(p, 6);
    var vy :- NumberField(p, 7);
    Ok(Body(kind, radius, color, mass, x, y, vx, vy))
  }

  /** Every token the parsers see is a lower-case word, so the colour they
      store has no capital letter and no whitespace. */
  lemma {:induction false} RecordTokensLower(line: string)
    ensures forall i :: 0 <= i < |RecordTokens(line)| ==>
              IsWord(RecordTokens(line)[i]) && IsLower(RecordTokens(line)[i])
  {
    SplitLower(line);
    var ts := Split(line);
    forall i | 0 <= i < |RecordTokens(line)|
      ensures IsWord(RecordTokens(line)[i]) && IsLower(RecordTokens(line)[i])
    {
      assert ts[i] in ts;
      assert RecordTokens(line)[i] == Lower(ts[i]);
      LowerWord(ts[i]);
    }
  }

  lemma LowerWord(t: string)
    requires IsWord(t)
    ensures IsWord(Lower(t)) && IsLower(Lower(t))
  {
  }

  /** A parsed record has the kind it was parsed as and a lower-case,
      whitespace-free colour. */
  lemma {:induction false} ParsedColorIsLowerWord(line: string, kind: string)
    requires ParseRecord(line, kind).Ok?
    ensures ParseRecord(line, kind).value.kind == kind
    ensures IsWord(ParseRecord(line, kind).value.color) && IsLower(ParseRecord(line, kind).value.color)
  {
    RecordTokensLower(line);
  }

  /** Field `i` of the token list can be read: the index is present and,
      unless it is the colour, `float()` accepts the token. */
  predicate FieldReads(p: seq<string>, i: nat) {
    i < |p| && (i == 2 || Numeric(p[i]))
  }

  /** The exception reading field `i` raises when it cannot be read: the
      IndexError of an absent index, otherwise the ValueError of `float()`
      on the token. */
  function FieldFailure(p: seq<string>, i: nat): FieldError {
    if i < |p| then NotANumber(p[i]) else Missing(i)
  }

  /** A failing parse raises the exception of its first unreadable field,
      the fields being read in the order 1 to 7. */
  lemma ParseRecordFirstError(line: string, kind: string, i: nat)
    requires 1 <= i <= 7
    requires forall j :: 1 <= j < i ==> FieldReads(RecordTokens(line), j)
    requires !FieldReads(RecordTokens(line), i)
    ensures ParseRecord(line, kind) == Err(FieldFailure(RecordTokens(line), i))
  {
    ParseFieldsFirstError(RecordTokens(line), kind, i);
  }

  lemma ParseFieldsFirstError(p: seq<string>, kind: string, i: nat)
    requires 1 <= i <= 7
    requires forall j :: 1 <= j < i ==> FieldReads(p, j)
    requires !FieldReads(p, i)
    ensures ParseFields(p, kind) == Err(FieldFailure(p, i))
  {
    if i == 2 {
      assert FieldReads(p, 1);
    } else if i == 3 {
      assert FieldReads(p, 1) && FieldReads(p, 2);
    } else if i == 4 {
      assert FieldReads(p, 1) && FieldReads(p, 2) && FieldReads(p, 3);
    } else if i == 5 {
      assert FieldReads(p, 1) && FieldReads(p, 2) && FieldReads(p, 3) && FieldReads(p, 4);
    } else if i == 6 {
      assert FieldReads(p, 1) && FieldReads(p, 2) && FieldReads(p, 3) && FieldReads(p, 4);
      assert FieldReads(p, 5);
    } else if i == 7 {
      assert FieldReads(p, 1) && FieldReads(p, 2) && FieldReads(p, 3) && FieldReads(p, 4);
      assert FieldReads(p, 5) && FieldReads(p, 6);
    }
  }

  /** A line with fewer than eight tokens fails at the first missing index
      (index 1 when only the keyword is there), provided the numbers before
      it are well formed; tokens count after lower-casing and splitting. */
  lemma {:induction false} ShortRecordFails(line: string, kind: string)
    requires |RecordTokens(line)| < 8
    requires forall i :: 1 <= i < |RecordTokens(line)| && i != 2 ==> Numeric(RecordTokens(line)[i])
    ensures ParseRecord(line, kind) == Err(Missing(if |RecordTokens(line)| < 1 then 1 else |RecordTokens(line)|))
  {
    var p := RecordTokens(line);
    if |p| > 1 {
      assert Numeric(p[1]);
    }
    if |p| > 3 {
      assert Numeric(p[3]);
    }
    if |p| > 4 {
      assert Numeric(p[4]);
    }
    if |p| > 5 {
      assert Numeric(p[5]);
    }
    if |p| > 6 {
      assert Numeric(p[6]);
    }
  }

  /** Tokens after the eighth do not matter: two lines whose first eight
      tokens agree parse alike. */
  lemma {:induction false} ExtraTokensIgnored(a: string, b: string, kind: string)
    requires |RecordTokens(a)| >= 8 && |RecordTokens(b)| >= 8
    requires RecordTokens(a)[..8] == RecordTokens(b)[..8]
    ensures ParseRecord(a, kind) == ParseRecord(b, kind)
  {
    var p, q := RecordTokens(a), RecordTokens(b);
    assert forall i :: 0 <= i < 8 ==> p[i] == p[..8][i] == q[..8][i] == q[i];
  }

  // ---------------------------------------------------------------------
  // The written line

  /** The tag the writer puts first: `Star` when the kind is `star`, and
      `Planet` for every other kind. */
  function Tag(kind: string): string {
    if kind == "star" then "Star" else "Planet"
  }

  /** The kind a tag reads back as. */
  function TagKind(kind: string): string {
    if kind == "star" then "star" else "planet"
  }

  /** A tag is one word, and lower-casing it names the kind it stands for. */
  lemma TagWord(kind: string)
    ensures IsWord(Tag(kind)) && Lower(Tag(kind)) == TagKind(kind)
  {
    if kind == "star" {
      assert IsWord("Star");
      assert Lower("Star") == "star";
    } else {
      assert IsWord("Planet");
      assert Lower("Planet") == "planet";
    }
  }

  /** The eight fields of `'Star %d %s %s %f %f %f %f \n'`: the tag, the
      radius truncated, the colour as is, the mass as `repr` writes it and
      the position and velocity with six decimals. */
  function Fields(b: Body): seq<string> {
    [Tag(b.kind), FormatInt(b.radius), b.color, FormatRepr(b.mass),
     FormatFixed(b.x), FormatFixed(b.y), FormatFixed(b.vx), FormatFixed(b.vy)]
  }

  /** The line written for one body: every field followed by one space,
      then the newline. */
  function FormatRecord(b: Body): string {
    JoinLine(Fields(b))
  }

  /** What reading a written line back yields: the kind becomes `star` or
      `planet` after the tag, the radius is truncated, the colour
      lower-cased, the mass exact and the rest rounded to six decimals. */
  function Reloaded(b: Body): Body {
    Body(TagKind(b.kind),
         Normalize(Decimal(Trunc(b.radius), 0)), Lower(b.color), Normalize(b.mass),
         Normalize(Decimal(RoundMicros(b.x), -6)), Normalize(Decimal(RoundMicros(b.y), -6)),
         Normalize(Decimal(RoundMicros(b.vx), -6)), Normalize(Decimal(RoundMicros(b.vy), -6)))
  }

  /** Reloading is stable: a body read back from a written line is written
      and read back as itself. */
  lemma ReloadedStable(b: Body)
    ensures Reloaded(Reloaded(b)) == Reloaded(b)
  {
    TruncWhole(Trunc(b.radius));
    NormalizeCanonical(Normalize(b.mass));
    RoundMicrosWhole(RoundMicros(b.x));
    RoundMicrosWhole(RoundMicros(b.y));
    RoundMicrosWhole(RoundMicros(b.vx));
    RoundMicrosWhole(RoundMicros(b.vy));
    LowerOfLower(Lower(b.color));
  }

  /** An eight-token line whose numeric fields are plain splits back into
      its tokens, and lower-casing it lower-cases only the tag and the
      colour. */
  lemma {:induction false} EightTokens(tag: string, radius: string, color: string, mass: string,
                                       x: string, y: string, vx: string, vy: string)
    requires IsWord(tag) && IsWord(color)
    requires |radius| > 0 && |mass| > 0 && |x| > 0 && |y| > 0 && |vx| > 0 && |vy| > 0
    requires Plain(radius) && Plain(mass) && Plain(x) && Plain(y) && Plain(vx) && Plain(vy)
    ensures Split(JoinLine([tag, radius, color, mass, x, y, vx, vy])) == [tag, radius, color, mass, x, y, vx, vy]
    ensures RecordTokens(JoinLine([tag, radius, color, mass, x, y, vx, vy]))
         == [Lower(tag), radius, Lower(color), mass, x, y, vx, vy]
  {
    var ts := [tag, radius, color, mass, x, y, vx, vy];
    PlainWord(radius);
    PlainWord(mass);
    PlainWord(x);
    PlainWord(y);
    PlainWord(vx);
    PlainWord(vy);
    SplitJoinLine(ts);
    SplitLower(JoinLine(ts));
    LowerOfLower(radius);
    LowerOfLower(mass);
    LowerOfLower(x);
    LowerOfLower(y);
    LowerOfLower(vx);
    LowerOfLower(vy);
  }

  /** A written line ends with a space and the newline. */
  lemma {:induction false} FormatRecordEnds(b: Body)
    ensures |FormatRecord(b)| >= 2 && FormatRecord(b)[|FormatRecord(b)| - 2..] == " \n"
  {
    JoinLineEnds(Fields(b));
  }

  /** A written line splits back into exactly its eight fields, and
      lower-casing changes only the tag and the colour. */
  lemma {:induction false} FormatRecordTokens(b: Body)
    requires IsWord(b.color)
    ensures Split(FormatRecord(b)) == Fields(b)
    ensures RecordTokens(FormatRecord(b))
         == [TagKind(b.kind), FormatInt(b.radius), Lower(b.color), FormatRepr(b.mass),
             FormatFixed(b.x), FormatFixed(b.y), FormatFixed(b.vx), FormatFixed(b.vy)]
  {
    TagWord(b.kind);
    FormatIntPlain(b.radius);
    FormatReprPlain(b.mass);
    FormatFixedPlain(b.x);
    FormatFixedPlain(b.y);
    FormatFixedPlain(b.vx);
    FormatFixedPlain(b.vy);
    EightTokens(Tag(b.kind), FormatInt(b.radius), b.color, FormatRepr(b.mass),
                FormatFixed(b.x), FormatFixed(b.y), FormatFixed(b.vx), FormatFixed(b.vy));
  }

  /** The round trip of one record: parsing the written line under the kind
      its tag names gives the reloaded body. */
  lemma {:induction false} ParseFormatRecord(b: Body)
    requires IsWord(b.color)
    ensures ParseRecord(FormatRecord(b), Reloaded(b).kind) == Ok(Reloaded(b))
  {
    WrittenFields(b);
    ParseFormatInt(b.radius);
    ParseFormatRepr(b.mass);
    ParseFormatFixed(b.x);
    ParseFormatFixed(b.y);
    ParseFormatFixed(b.vx);
    ParseFormatFixed(b.vy);
    ParseRecordOf(FormatRecord(b), Reloaded(b).kind, FormatInt(b.radius), FormatRepr(b.mass),
                  FormatFixed(b.x), FormatFixed(b.y), FormatFixed(b.vx), FormatFixed(b.vy), Reloaded(b));
  }

  lemma WrittenFields(b: Body)
    requires IsWord(b.color)
    ensures var p := RecordTokens(FormatRecord(b));
            && |p| == 8 && p[1] == FormatInt(b.radius) && p[2] == Lower(b.color) && p[3] == FormatRepr(b.mass)
            && p[4] == FormatFixed(b.x) && p[5] == FormatFixed(b.y) && p[6] == FormatFixed(b.vx)
            && p[7] == FormatFixed(b.vy)
  {
    FormatRecordTokens(b);
    EightIndices(RecordTokens(FormatRecord(b)), TagKind(b.kind), FormatInt(b.radius), Lower(b.color),
                 FormatRepr(b.mass), FormatFixed(b.x), FormatFixed(b.y), FormatFixed(b.vx), FormatFixed(b.vy));
  }

  lemma EightIndices<T>(p: seq<T>, t0: T, t1: T, t2: T, t3: T, t4: T, t5: T, t6: T, t7: T)
    requires p == [t0, t1, t2, t3, t4, t5, t6, t7]
    ensures |p| == 8 && p[0] == t0 && p[1] == t1 && p[2] == t2 && p[3] == t3
    ensures p[4] == t4 && p[5] == t5 && p[6] == t6 && p[7] == t7
  {
  }

  /** A line whose eight tokens hold the fields of `v` parses to `v`. */
  lemma {:induction false} ParseRecordOf(line: string, kind: string, radius: string, mass: string,
                                         x: string, y: string, vx: string, vy: string, v: Body)
    requires |RecordTokens(line)| >= 8 && v.kind == kind && RecordTokens(line)[2] == v.color
    requires RecordTokens(line)[1] == radius && ParseNumber(radius) == Some(v.radius)
    requires RecordTokens(line)[3] == mass && ParseNumber(mass) == Some(v.mass)
    requires RecordTokens(line)[4] == x && ParseNumber(x) == Some(v.x)
    requires RecordTokens(line)[5] == y && ParseNumber(y) == Some(v.y)
    requires RecordTokens(line)[6] == vx && ParseNumber(vx) == Some(v.vx)
    requires RecordTokens(line)[7] == vy && ParseNumber(vy) == Some(v.vy)
    ensures ParseRecord(line, kind) == Ok(v)
  {
  }
}
