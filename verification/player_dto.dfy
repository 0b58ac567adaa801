/**
 * The player request and response shapes: the input constructor's defaults,
 * the validation rules its decorators declare, and the output constructor's
 * null-normalisation. Request fields are arbitrary JavaScript values.
 */
module PlayerDto {
  import opened Wrappers

  /** The JavaScript values a JSON request field can hold (numbers are finite; NaN is left out). */
  datatype JsValue = Undefined | Null | Bool(b: bool) | Num(n: real) | Str(s: string) | Object

  /** JavaScript truthiness. */
  predicate Truthy(v: JsValue) {
    match v
    case Undefined => false
    case Null => false
    case Bool(b) => b
    case Num(n) => n != 0.0
    case Str(s) => s != ""
    case Object => true
  }

  /** `v || fallback`. */
  function OrElse(v: JsValue, fallback: JsValue): (r: JsValue)
    ensures Truthy(v) ==> r == v
    ensures !Truthy(v) ==> r == fallback
  {
    if Truthy(v) then v else fallback
  }

  /** The four fields of a player request, `Undefined` where the key is missing. */
  datatype PlayerInput = PlayerInput(name: JsValue, cls: JsValue, experience: JsValue, guildId: JsValue)

  /** The input constructor: falsy name or class become "", falsy experience becomes 0, guild id passes through. */
  function Construct(data: PlayerInput): (dto: PlayerInput)
    ensures dto.guildId == data.guildId
    ensures Truthy(dto.name) ==> dto.name == data.name
    ensures Truthy(dto.cls) ==> dto.cls == data.cls
    ensures !Truthy(data.name) ==> dto.name == Str("")
    ensures !Truthy(data.cls) ==> dto.cls == Str("")
    ensures !Truthy(data.experience) ==> dto.experience == Num(0.0)
    ensures Truthy(data.experience) ==> dto.experience == data.experience
  {
    PlayerInput(OrElse(data.name, Str("")), OrElse(data.cls, Str("")), OrElse(data.experience, Num(0.0)), data.guildId)
  }

  /** The class labels the class field accepts. */
  const AllowedClasses: seq<string> := ["WARRIOR", "MAGE", "CLERIC"]

  /** A request field named in a validation error. */
  datatype Field = Name | Class | Experience | GuildId

  /** Not-empty: not "", null or undefined. */
  predicate IsNotEmpty(v: JsValue) {
    v != Str("") && v != Null && v != Undefined
  }

  predicate IsString(v: JsValue) {
    v.Str?
  }

  /** Strict equality with one of the allowed labels. */
  predicate IsAllowedClass(v: JsValue) {
    v.Str? && v.s in AllowedClasses
  }

  /** A number with no fractional part. */
  predicate IsInt(v: JsValue) {
    v.Num? && v.n.Floor as real == v.n
  }

  /** A number within the inclusive bounds. */
  predicate InRange(v: JsValue, lo: real, hi: real) {
    v.Num? && lo <= v.n && v.n <= hi
  }

  /** The JavaScript number holding an integer. */
  function IntValue(k: int): JsValue {
    Num(k as real)
  }

  /** Missing in the sense the optional marker uses: null or undefined skip the remaining checks. */
  predicate IsAbsent(v: JsValue) {
    v == Null || v == Undefined
  }

  /** The fields that fail their rules, in declaration order. */
  function Validate(dto: PlayerInput): (errors: seq<Field>)
    ensures |errors| <= 4
    ensures forall i, j :: 0 <= i < j < |errors| ==> errors[i] != errors[j]
    ensures errors == [] ==> dto.name.Str? && dto.cls.Str? && dto.experience.Num? && (IsAbsent(dto.guildId) || dto.guildId.Str?)
  {
    (if IsNotEmpty(dto.name) && IsString(dto.name) then [] else [Name])
    + (if IsNotEmpty(dto.cls) && IsString(dto.cls) && IsAllowedClass(dto.cls) then [] else [Class])
    + (if IsInt(dto.experience) && InRange(dto.experience, 0.0, 100.0) then [] else [Experience])
    + (if IsAbsent(dto.guildId) || IsString(dto.guildId) then [] else [GuildId])
  }

  /**
   * Each field's rule, in plain terms: a name is a non-empty string; a class
   * is exactly one of the allowed labels; an experience is an integer from
   * 0 to 100; a guild id is missing or a string.
   */
  lemma ValidationRules(dto: PlayerInput)
    ensures Name !in Validate(dto) <==> exists s :: dto.name == Str(s) && s != ""
    ensures Class !in Validate(dto) <==> dto.cls in [Str("WARRIOR"), Str("MAGE"), Str("CLERIC")]
    ensures Experience !in Validate(dto) <==> exists k: int :: 0 <= k <= 100 && dto.experience == IntValue(k)
    ensures GuildId !in Validate(dto) <==> dto.guildId.Undefined? || dto.guildId.Null? || dto.guildId.Str?
    ensures Validate(dto) == [] <==> forall f: Field :: f !in Validate(dto)
  {
    if dto.experience.Num? && dto.experience.n.Floor as real == dto.experience.n {
      assert dto.experience == IntValue(dto.experience.n.Floor);
    }
    if dto.name.Str? {
      assert dto.name == Str(dto.name.s);
    }
    var e := Validate(dto);
    if e != [] {
      assert e[0] in e;
    }
  }

  /**
   * What the controller accepts, stated on the raw request: the constructor
   * runs first, so a missing or falsy experience is accepted as 0 and a
   * missing name is rejected.
   */
  lemma AcceptedRequests(data: PlayerInput)
    ensures Validate(Construct(data)) == [] <==>
              && data.name.Str? && data.name.s != ""
              && data.cls.Str? && data.cls.s in AllowedClasses
              && (!Truthy(data.experience) || (IsInt(data.experience) && InRange(data.experience, 1.0, 100.0)))
              && (IsAbsent(data.guildId) || IsString(data.guildId))
  {
    var dto := Construct(data);
    if Truthy(data.experience) && IsInt(data.experience) && InRange(data.experience, 0.0, 100.0) {
      assert data.experience.n != 0.0;
    }
  }

  /** A request without a name fails on the name even after the constructor's default. */
  lemma MissingNameRejected(cls: JsValue, experience: JsValue, guildId: JsValue)
    ensures Name in Validate(Construct(PlayerInput(Undefined, cls, experience, guildId)))
  {
  }

  // ----- output -----------------------------------------------------------

  /** Opaque wall-clock values. */
  type Timestamp = int

  /** A player as read from the store: the input of the output DTO's constructor. */
  datatype PlayerView = PlayerView(
    id: string, name: string, cls: string, experience: int, guildId: Option<string>,
    createdAt: Timestamp, updatedAt: Timestamp, deletedAt: Option<Timestamp>)

  /**
   * The output constructor: a falsy guild id (absent or "") becomes null and
   * an absent deletion time stays null; everything else is copied.
   */
  function ToOutput(p: PlayerView): (out: PlayerView)
    ensures out.guildId.None? <==> p.guildId.None? || p.guildId == Some("")
    ensures out.guildId.Some? ==> out.guildId == p.guildId
    ensures out.guildId != Some("")
    ensures out.(guildId := p.guildId) == p
  {
    var guild := if p.guildId.Some? && p.guildId.value != "" then p.guildId else None;
    p.(guildId := guild, deletedAt := if p.deletedAt.Some? then p.deletedAt else None)
  }

  /** Normalising an already normalised player changes nothing. */
  lemma ToOutputIdempotent(p: PlayerView)
    ensures ToOutput(ToOutput(p)) == ToOutput(p)
  {
  }
}
