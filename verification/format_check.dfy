/** `check_formats_ok`, the validator the GUI applies to the paper, card and
    separation formats it reads from its settings file, and the choice
    between a configured value and the built-in default. */
module FormatCheck {
  import opened Wrappers

  /** The Python values a JSON settings file (or a caller) can hand over. */
  datatype Value =
    | Int(i: int)
    | Float(x: real)
    | Bool(b: bool)
    | Str(s: string)
    | Null
    | List(items: seq<Value>)
    | Tuple(items: seq<Value>)
    | Dict(fields: seq<Field>)

  /** One key/value pair of a dict, in insertion order. */
  datatype Field = Field(key: string, value: Value)

  /** `isinstance(v, (int, float))`; a bool is an int in Python. */
  predicate IsNumber(v: Value) {
    v.Int? || v.Float? || v.Bool?
  }

  /** A format: a list or tuple of exactly two numbers. */
  predicate IsPair(v: Value) {
    (v.List? || v.Tuple?) && |v.items| == 2 && IsNumber(v.items[0]) && IsNumber(v.items[1])
  }

  /** What the validator accepts: a pair, or a dict whose values are all
      accepted (so the empty dict and nested dicts pass); nothing else. */
  predicate FormatsOk(v: Value)
    decreases v
  {
    match v
    case List(_) => IsPair(v)
    case Tuple(_) => IsPair(v)
    case Dict(fs) => forall i :: 0 <= i < |fs| ==> FormatsOk(fs[i].value)
    case _ => false
  }

  /** The validator as the source runs it: the length assertion first, then
      one assertion per element, and for a dict one recursive check per
      value, the first failure ending the whole check. */
  method CheckFormats(v: Value) returns (ok: bool)
    ensures ok <==> FormatsOk(v)
    ensures (v.List? || v.Tuple?) ==> (ok <==> |v.items| == 2 && forall k :: 0 <= k < 2 ==> IsNumber(v.items[k]))
    ensures v.Dict? ==> (ok <==> forall k :: 0 <= k < |v.fields| ==> FormatsOk(v.fields[k].value))
    ensures !(v.List? || v.Tuple? || v.Dict?) ==> !ok
    decreases v
  {
    if v.List? || v.Tuple? {
      var xs := v.items;
      if |xs| != 2 {
        return false;
      }
      var i := 0;
      while i < |xs|
        invariant 0 <= i <= |xs|
        invariant forall k :: 0 <= k < i ==> IsNumber(xs[k])
      {
        if !IsNumber(xs[i]) {
          return false;
        }
        i := i + 1;
      }
      return true;
    } else if v.Dict? {
      var fs := v.fields;
      var i := 0;
      while i < |fs|
        invariant 0 <= i <= |fs|
        invariant forall k :: 0 <= k < i ==> FormatsOk(fs[k].value)
      {
        var sub := CheckFormats(fs[i].value);
        if !sub {
          return false;
        }
        i := i + 1;
      }
      return true;
    } else {
      return false;
    }
  }

  /** The formats the GUI runs with. */
  datatype Settings = Settings(paperFormats: Value, cardFormats: Value, separation: Value)

  function DefaultSettings(): Settings {
    Settings(
      Dict([Field("Ledger 432x279 mm", List([Int(432), Int(279)]))]),
      Dict([Field("Pokemon", List([Int(63), Int(88)])), Field("Yugioh", List([Int(59), Float(85.5)]))]),
      List([Float(0.8), Float(0.8)]))
  }

  /** The built-in defaults pass the validator. */
  lemma DefaultsOk()
    ensures FormatsOk(DefaultSettings().paperFormats)
    ensures FormatsOk(DefaultSettings().cardFormats)
    ensures FormatsOk(DefaultSettings().separation)
  {
  }

  /** A configured entry replaces the default only when it is present and
      passes the validator. */
  function Choose(configured: Option<Value>, default: Value): (v: Value)
    ensures FormatsOk(default) ==> FormatsOk(v)
    ensures configured.Some? && FormatsOk(configured.value) ==> v == configured.value
    ensures (configured.None? || !FormatsOk(configured.value)) ==> v == default
  {
    if configured.Some? && FormatsOk(configured.value) then configured.value else default
  }

  /** Reading the three format entries of the settings file. */
  function LoadSettings(paper: Option<Value>, card: Option<Value>, sep: Option<Value>): (s: Settings)
    ensures FormatsOk(s.paperFormats) && FormatsOk(s.cardFormats) && FormatsOk(s.separation)
    ensures paper.Some? && FormatsOk(paper.value) ==> s.paperFormats == paper.value
    ensures card.Some? && FormatsOk(card.value) ==> s.cardFormats == card.value
    ensures sep.Some? && FormatsOk(sep.value) ==> s.separation == sep.value
    ensures (paper.None? || !FormatsOk(paper.value)) ==> s.paperFormats == DefaultSettings().paperFormats
    ensures (card.None? || !FormatsOk(card.value)) ==> s.cardFormats == DefaultSettings().cardFormats
    ensures (sep.None? || !FormatsOk(sep.value)) ==> s.separation == DefaultSettings().separation
  {
    var d := DefaultSettings();
    DefaultsOk();
    Settings(Choose(paper, d.paperFormats), Choose(card, d.cardFormats), Choose(sep, d.separation))
  }

  /** Settings read from a file and written back are read back unchanged:
      loading is idempotent. */
  lemma ReloadSettings(paper: Option<Value>, card: Option<Value>, sep: Option<Value>)
    ensures var s := LoadSettings(paper, card, sep);
      LoadSettings(Some(s.paperFormats), Some(s.cardFormats), Some(s.separation)) == s
  {
    var s := LoadSettings(paper, card, sep);
    var s' := LoadSettings(Some(s.paperFormats), Some(s.cardFormats), Some(s.separation));
    assert s'.paperFormats == s.paperFormats;
    assert s'.cardFormats == s.cardFormats;
    assert s'.separation == s.separation;
  }

  /** The validator cannot tell a table of formats from a single format:
      a settings file whose separation is the empty dict, or whose paper
      formats are one bare pair, is accepted, although the GUI then indexes
      the separation by position and the paper formats by name. */
  lemma LoadSettingsAcceptsWrongShapes()
    ensures LoadSettings(None, None, Some(Dict([]))).separation == Dict([])
    ensures !IsPair(LoadSettings(None, None, Some(Dict([]))).separation)
    ensures LoadSettings(Some(List([Int(1), Int(2)])), None, None).paperFormats.List?
  {
  }

  /** A table of formats: a dict whose every value is a pair. */
  predicate IsFormatTable(v: Value) {
    v.Dict? && forall i :: 0 <= i < |v.fields| ==> IsPair(v.fields[i].value)
  }

  /** Reading the settings with the shape each entry is used with. */
  function LoadSettingsChecked(paper: Option<Value>, card: Option<Value>, sep: Option<Value>): (s: Settings)
    ensures IsFormatTable(s.paperFormats) && IsFormatTable(s.cardFormats) && IsPair(s.separation)
    ensures paper.Some? && IsFormatTable(paper.value) ==> s.paperFormats == paper.value
    ensures card.Some? && IsFormatTable(card.value) ==> s.cardFormats == card.value
    ensures sep.Some? && IsPair(sep.value) ==> s.separation == sep.value
  {
    var d := DefaultSettings();
    Settings(
      if paper.Some? && IsFormatTable(paper.value) then paper.value else d.paperFormats,
      if card.Some? && IsFormatTable(card.value) then card.value else d.cardFormats,
      if sep.Some? && IsPair(sep.value) then sep.value else d.separation)
  }

  /** Every shape the checked reading accepts, the source's validator
      accepts too: the correction only rejects more. */
  lemma CheckedIsStricter(v: Value)
    ensures IsFormatTable(v) ==> FormatsOk(v)
    ensures IsPair(v) ==> FormatsOk(v)
  {
  }
}
