/** Looking a constant up by its Natural text: what `PFKey.fromNatural` and
    `SetKeyCommand.fromNatural` both do with `values()`, a filter on the
    natural text and `findFirst`. */
module Lookup {

  /** The position of the first key, in declaration order, whose natural
      text is exactly `text`, or `-1` when there is none. */
  function FirstWith<K>(keys: seq<K>, text: string, natural: K -> string): (r: int)
    ensures -1 <= r < |keys|
    ensures r >= 0 ==> natural(keys[r]) == text
    ensures r >= 0 ==> forall j :: 0 <= j < r ==> natural(keys[j]) != text
    ensures r == -1 <==> forall j :: 0 <= j < |keys| ==> natural(keys[j]) != text
    decreases |keys|
  {
    if keys == [] then -1
    else if natural(keys[0]) == text then 0
    else
      var rest := FirstWith(keys[1..], text, natural);
      if rest == -1 then -1 else rest + 1
  }

  /** When no earlier key shares its text, looking up a key's own text finds
      that key. */
  lemma FirstWithOwnText<K>(keys: seq<K>, i: nat, natural: K -> string)
    requires i < |keys|
    requires forall j :: 0 <= j < i ==> natural(keys[j]) != natural(keys[i])
    ensures FirstWith(keys, natural(keys[i]), natural) == i
  {
  }
}

/** `PFKey`: the program function keys of a 3270 terminal, by their Natural
    names. */
module PFKeys {
  import opened Results
  import opened Lookup

  datatype PFKey = PF1 | PF2 | PF3 | PF4 | PF5 | PF6 | PF7 | PF8 | PF9 | PF10 | PF11 | PF12

  /** `values()`: the constants in declaration order. */
  const Values: seq<PFKey> := [PF1, PF2, PF3, PF4, PF5, PF6, PF7, PF8, PF9, PF10, PF11, PF12]

  /** The Java constant name, `name()`. */
  function Name(k: PFKey): string {
    match k
    case PF1 => "PF1"
    case PF2 => "PF2"
    case PF3 => "PF3"
    case PF4 => "PF4"
    case PF5 => "PF5"
    case PF6 => "PF6"
    case PF7 => "PF7"
    case PF8 => "PF8"
    case PF9 => "PF9"
    case PF10 => "PF10"
    case PF11 => "PF11"
    case PF12 => "PF12"
  }

  /** The natural text each constant is declared with. As written, `PF12`
      is declared with `"PF2"`, the text of `PF2`. */
  function NaturalValue(k: PFKey): string {
    if k == PF12 then "PF2" else Name(k)
  }

  /** `fromNatural(text)` as written: the first constant whose natural text
      is `text`, or a `NaturalException` when there is none. */
  function FromNatural(text: string): (r: Result<PFKey>)
    ensures r.Ok? ==> NaturalValue(r.value) == text
    ensures r.Err? <==> forall k: PFKey :: NaturalValue(k) != text
    ensures r.Err? ==> r.error == NaturalException(InvalidKeyValue)
  {
    var i := FirstWith(Values, text, NaturalValue);
    if i == -1 then
      Unlisted(text, NaturalValue);
      Err(NaturalException(InvalidKeyValue))
    else Ok(Values[i])
  }

  /** A text that no entry of `values()` carries is no constant's text. */
  lemma Unlisted(text: string, natural: PFKey -> string)
    requires forall j :: 0 <= j < |Values| ==> natural(Values[j]) != text
    ensures forall k: PFKey :: natural(k) != text
  {
    forall k: PFKey ensures natural(k) != text {
      var i := IndexOf(k);
    }
  }

  /** `toJava()`: the Java expression naming the constant. */
  function ToJava(k: PFKey): (r: string)
    ensures |r| >= 6 && r[..6] == "PFKey." && r[6..] == Name(k)
  {
    "PFKey." + Name(k)
  }

  /** Two constants are told apart by their Java names. */
  lemma NameInjective(a: PFKey, b: PFKey)
    ensures Name(a) == Name(b) ==> a == b
  {
    if Name(a) == Name(b) {
      NameDecides(a, Name(a));
      NameDecides(b, Name(b));
    }
  }

  /** The constant is read back from its Java name. */
  lemma NameDecides(k: PFKey, name: string)
    requires Name(k) == name
    ensures k == NamedBy(name)
  {
  }

  function NamedBy(name: string): PFKey {
    if name == "PF1" then PF1 else if name == "PF2" then PF2 else if name == "PF3" then PF3
    else if name == "PF4" then PF4 else if name == "PF5" then PF5 else if name == "PF6" then PF6
    else if name == "PF7" then PF7 else if name == "PF8" then PF8 else if name == "PF9" then PF9
    else if name == "PF10" then PF10 else if name == "PF11" then PF11 else PF12
  }

  /** `toJava` names every constant differently. */
  lemma ToJavaInjective(a: PFKey, b: PFKey)
    ensures ToJava(a) == ToJava(b) ==> a == b
  {
    if ToJava(a) == ToJava(b) {
      assert Name(a) == ToJava(a)[6..];
      NameInjective(a, b);
    }
  }

  /** Every key but `PF12` comes back from its own natural text. */
  lemma RoundTripExceptPf12(k: PFKey)
    requires k != PF12
    ensures FromNatural(NaturalValue(k)) == Ok(k)
  {
    var i := IndexOf(k);
    forall j | 0 <= j < i
      ensures NaturalValue(Values[j]) != NaturalValue(Values[i])
    {
      NameInjective(Values[j], Values[i]);
    }
    FirstWithOwnText(Values, i, NaturalValue);
  }

  /** Where a constant stands in `values()`. */
  function IndexOf(k: PFKey): (i: nat)
    ensures i < |Values| && Values[i] == k
    ensures forall j :: 0 <= j < i ==> Values[j] != k
  {
    match k
    case PF1 => 0 case PF2 => 1 case PF3 => 2 case PF4 => 3 case PF5 => 4 case PF6 => 5
    case PF7 => 6 case PF8 => 7 case PF9 => 8 case PF10 => 9 case PF11 => 10 case PF12 => 11
  }

  /** `PF12` is out of reach as written: no text gives it, its own name is
      refused, and its natural text gives `PF2`. */
  lemma Pf12Unreachable(text: string)
    ensures FromNatural(text) != Ok(PF12)
    ensures FromNatural("PF12").Err?
    ensures FromNatural(NaturalValue(PF12)) == Ok(PF2)
  {
    RoundTripExceptPf12(PF2);
    Pf12NameRefused();
  }

  lemma Pf12NameRefused()
    ensures FromNatural("PF12").Err?
  {
    forall k: PFKey ensures NaturalValue(k) != "PF12" {
      match k
      case PF10 => assert "PF10"[3] != "PF12"[3];
      case PF11 => assert "PF11"[3] != "PF12"[3];
      case _ => assert |NaturalValue(k)| == 3;
    }
  }

  // ---------------------------------------------------------------------
  // As evidently intended: every key declared with its own name.

  function NaturalValueIntended(k: PFKey): string {
    Name(k)
  }

  function FromNaturalIntended(text: string): (r: Result<PFKey>)
    ensures r.Ok? ==> NaturalValueIntended(r.value) == text
    ensures r.Err? <==> forall k: PFKey :: NaturalValueIntended(k) != text
    ensures r.Err? ==> r.error == NaturalException(InvalidKeyValue)
  {
    var i := FirstWith(Values, text, NaturalValueIntended);
    if i == -1 then
      Unlisted(text, NaturalValueIntended);
      Err(NaturalException(InvalidKeyValue))
    else Ok(Values[i])
  }

  /** With every key declared with its own name, every key, `PF12`
      included, comes back from its natural text. */
  lemma RoundTripIntended(k: PFKey)
    ensures FromNaturalIntended(NaturalValueIntended(k)) == Ok(k)
  {
    var i := IndexOf(k);
    forall j | 0 <= j < i
      ensures NaturalValueIntended(Values[j]) != NaturalValueIntended(Values[i])
    {
      NameInjective(Values[j], Values[i]);
    }
    FirstWithOwnText(Values, i, NaturalValueIntended);
  }
}

/** `SetKeyCommand`: the commands a `SET KEY` statement assigns to a key. */
module SetKeyCommands {
  import opened Results
  import opened Lookup

  datatype SetKeyCommand = All | On | Off | NamedOff | CommandOn | CommandOff | Pgm

  /** `values()`: the constants in declaration order. */
  const Values: seq<SetKeyCommand> := [All, On, Off, NamedOff, CommandOn, CommandOff, Pgm]

  /** The Java constant name, `name()`. */
  function Name(c: SetKeyCommand): string {
    match c
    case All => "ALL"
    case On => "ON"
    case Off => "OFF"
    case NamedOff => "NAMED_OFF"
    case CommandOn => "COMMAND_ON"
    case CommandOff => "COMMAND_OFF"
    case Pgm => "PGM"
  }

  /** The natural text each constant is declared with: the Natural keywords,
      separated by a space. */
  function NaturalValue(c: SetKeyCommand): string {
    match c
    case All => "ALL"
    case On => "ON"
    case Off => "OFF"
    case NamedOff => "NAMED OFF"
    case CommandOn => "COMMAND ON"
    case CommandOff => "COMMAND OFF"
    case Pgm => "PGM"
  }

  /** `fromNatural(text)`: the constant whose natural text is exactly
      `text`, matched case and spaces included, or a `NaturalException`. */
  function FromNatural(text: string): (r: Result<SetKeyCommand>)
    ensures r.Ok? ==> NaturalValue(r.value) == text
    ensures r.Err? <==> forall c: SetKeyCommand :: NaturalValue(c) != text
    ensures r.Err? ==> r.error == NaturalException(InvalidKeyValue)
  {
    var i := FirstWith(Values, text, NaturalValue);
    if i == -1 then
      Unlisted(text, NaturalValue);
      Err(NaturalException(InvalidKeyValue))
    else Ok(Values[i])
  }

  /** Where a constant stands in `values()`. */
  function IndexOf(c: SetKeyCommand): (i: nat)
    ensures i < |Values| && Values[i] == c
  {
    match c
    case All => 0 case On => 1 case Off => 2 case NamedOff => 3
    case CommandOn => 4 case CommandOff => 5 case Pgm => 6
  }

  /** A text that no entry of `values()` carries is no constant's text. */
  lemma Unlisted(text: string, natural: SetKeyCommand -> string)
    requires forall j :: 0 <= j < |Values| ==> natural(Values[j]) != text
    ensures forall c: SetKeyCommand :: natural(c) != text
  {
    forall c: SetKeyCommand ensures natural(c) != text {
      var i := IndexOf(c);
    }
  }

  /** `toJava()`: the Java expression naming the constant. */
  function ToJava(c: SetKeyCommand): (r: string)
    ensures |r| >= 14 && r[..14] == "SetKeyCommand." && r[14..] == Name(c)
  {
    "SetKeyCommand." + Name(c)
  }

  /** The natural texts are pairwise distinct. */
  lemma NaturalValueInjective(a: SetKeyCommand, b: SetKeyCommand)
    ensures NaturalValue(a) == NaturalValue(b) ==> a == b
  {
    if NaturalValue(a) == NaturalValue(b) {
      assert NaturalValue(a)[..] == NaturalValue(b)[..];
      assert NamedBy(NaturalValue(a)) == a && NamedBy(NaturalValue(b)) == b;
    }
  }

  function NamedBy(text: string): SetKeyCommand {
    if text == "ALL" then All else if text == "ON" then On else if text == "OFF" then Off
    else if text == "NAMED OFF" then NamedOff else if text == "COMMAND ON" then CommandOn
    else if text == "COMMAND OFF" then CommandOff else Pgm
  }

  /** Every command comes back from its own natural text, and a text is
      accepted exactly when it is some command's natural text. */
  lemma RoundTrip(c: SetKeyCommand, text: string)
    ensures FromNatural(NaturalValue(c)) == Ok(c)
    ensures FromNatural(text).Ok? ==> NaturalValue(FromNatural(text).value) == text
  {
    var r := FromNatural(NaturalValue(c));
    NaturalValueInjective(r.value, c);
  }

  /** The match is exact: a lower-case or differently spaced spelling is
      refused. */
  lemma ExactMatch()
    ensures FromNatural("NAMED OFF") == Ok(NamedOff)
    ensures FromNatural("named off").Err?
    ensures FromNatural("NAMED  OFF").Err?
    ensures FromNatural("NAMED_OFF").Err?
  {
    RoundTrip(NamedOff, "NAMED OFF");
    assert "named off"[0] == 'n';
    Refused("named off");
    assert "NAMED  OFF"[6] == ' ';
    Refused("NAMED  OFF");
    assert "NAMED_OFF"[5] == '_';
    Refused("NAMED_OFF");
  }

  /** A text that differs from every natural text is refused. */
  lemma Refused(text: string)
    requires text != "ALL" && text != "ON" && text != "OFF" && text != "NAMED OFF"
    requires text != "COMMAND ON" && text != "COMMAND OFF" && text != "PGM"
    ensures FromNatural(text).Err?
  {
    forall c: SetKeyCommand ensures NaturalValue(c) != text {
      match c
      case All => case On => case Off => case NamedOff =>
      case CommandOn => case CommandOff => case Pgm =>
    }
  }
}
