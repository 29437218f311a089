/** The closed set of movement mechanics and the conversion of a mechanic to its
    short display name, as the state machine uses it for component paths and
    diagnostics. */
module CharacterStates {

  /** The mechanics a character can be in. Declaration order is the enum's
      ordinal order. */
  datatype CharacterState = DefaultState | Sliding | WallClimbing | WallRunning | AirDashing

  /** The position of a member in the enum declaration. */
  function Ordinal(s: CharacterState): (n: nat)
    ensures n < 5
  {
    match s
    case DefaultState => 0
    case Sliding => 1
    case WallClimbing => 2
    case WallRunning => 3
    case AirDashing => 4
  }

  /** Every member, in declaration order: what a handler iterates when it fills
      its permission table (the engine's trailing MAX entry is not a member). */
  function AllStates(): (states: seq<CharacterState>)
    ensures |states| == 5
    ensures forall i | 0 <= i < |states| :: Ordinal(states[i]) == i
    ensures forall s: CharacterState :: states[Ordinal(s)] == s
  {
    [DefaultState, Sliding, WallClimbing, WallRunning, AirDashing]
  }

  /** The member's identifier as declared. */
  function Name(s: CharacterState): string
  {
    match s
    case DefaultState => "DefaultState"
    case Sliding => "Sliding"
    case WallClimbing => "WallClimbing"
    case WallRunning => "WallRunning"
    case AirDashing => "AirDashing"
  }

  const EnumTypeName: string := "ECharacterState"

  /** The string the engine's reflection produces for a value: the enum type's
      name, the scope separator, then the member's name. */
  function ValueAsString(s: CharacterState): string
  {
    EnumTypeName + "::" + Name(s)
  }

  predicate NoScopeSeparator(s: string)
  {
    ':' !in s
  }

  function Cull(part: string): (parts: seq<string>)
    ensures forall i | 0 <= i < |parts| :: parts[i] != ""
  {
    if part == "" then [] else [part]
  }

  /** Splits `s` at every "::", left to right, dropping empty pieces; `part` is
      the piece collected so far. */
  function SplitScope(s: string, part: string): (parts: seq<string>)
    ensures forall i | 0 <= i < |parts| :: parts[i] != ""
    decreases |s|
  {
    if s == [] then Cull(part)
    else if |s| >= 2 && s[0] == ':' && s[1] == ':' then Cull(part) + SplitScope(s[2..], "")
    else SplitScope(s[1..], part + [s[0]])
  }

  /** String splitting on the delimiter "::" with empty pieces culled. */
  function ParseIntoArray(s: string): (parts: seq<string>)
    ensures forall i | 0 <= i < |parts| :: parts[i] != ""
  {
    SplitScope(s, "")
  }

  /** A piece without separators is collected whole. */
  lemma {:induction false} SplitPlain(n: string, part: string)
    requires NoScopeSeparator(n) && part + n != ""
    ensures SplitScope(n, part) == [part + n]
    decreases |n|
  {
    if n == [] {
      assert part + n == part;
    } else {
      assert n[0] == n[..1][0];
      assert n[0] != ':';
      assert NoScopeSeparator(n[1..]) by {
        forall c | c in n[1..] ensures c in n { }
      }
      SplitPlain(n[1..], part + [n[0]]);
      assert part + [n[0]] + n[1..] == part + n;
    }
  }

  /** A qualified name "p::n" splits into its two halves. */
  lemma {:induction false} SplitQualified(p: string, n: string, part: string)
    requires NoScopeSeparator(p) && NoScopeSeparator(n) && n != "" && part + p != ""
    ensures SplitScope(p + "::" + n, part) == [part + p, n]
    decreases |p|
  {
    var s := p + "::" + n;
    if p == [] {
      assert s == "::" + n;
      assert s[0] == ':' && s[1] == ':';
      assert s[2..] == n;
      assert part + p == part;
      SplitPlain(n, "");
      assert "" + n == n;
    } else {
      assert p[0] == p[..1][0];
      assert s[0] == p[0] && p[0] != ':';
      assert NoScopeSeparator(p[1..]) by {
        forall c | c in p[1..] ensures c in p { }
      }
      assert s[1..] == p[1..] + "::" + n;
      SplitQualified(p[1..], n, part + [p[0]]);
      assert part + [p[0]] + p[1..] == part + p;
    }
  }

  /** The short name: the part of the reflected string after "::", or the whole
      string when it does not split. */
  function EnumToString(s: CharacterState): (name: string)
    ensures name == Name(s)
  {
    var full := ValueAsString(s);
    var parts := ParseIntoArray(full);
    assert NoScopeSeparator(EnumTypeName) && NoScopeSeparator(Name(s)) && Name(s) != "";
    SplitQualified(EnumTypeName, Name(s), "");
    assert "" + EnumTypeName == EnumTypeName;
    if |parts| > 1 then parts[1] else full
  }

  /** Distinct mechanics have distinct names, so looking a handler up by name is
      the same as looking it up by mechanic. */
  lemma EnumToStringInjective(a: CharacterState, b: CharacterState)
    requires EnumToString(a) == EnumToString(b)
    ensures a == b
  {
  }
}
