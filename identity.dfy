/**
 * Identifier of a debuggee variable (`VariableIdentity`) and the way it is
 * displayed: the namespace path joined with `::`, then the name, where a
 * compiler-generated name `__<n>` (a tuple field, say) shows as just `n`.
 */
module Identity {
  import opened Wrappers

  /** Namespace path (outermost first) and the optional name of a variable. */
  datatype VariableIdentity = VariableIdentity(namespace: seq<string>, name: Option<string>)

  /** `VariableIdentity::no_namespace` */
  function NoNamespace(name: Option<string>): VariableIdentity {
    VariableIdentity([], name)
  }

  /** `parts.join(sep)`: the parts with `sep` between each neighbouring pair. */
  function Join(parts: seq<string>, sep: string): string
    decreases |parts|
  {
    if |parts| == 0 then ""
    else if |parts| == 1 then parts[0]
    else parts[0] + sep + Join(parts[1..], sep)
  }

  /** `trim_start_matches('_')`: what is left once every leading underscore is dropped. */
  function TrimUnderscores(s: string): (r: string)
    ensures |r| <= |s| && r == s[|s| - |r|..]
    ensures r == [] || r[0] != '_'
    ensures forall i :: 0 <= i < |s| - |r| ==> s[i] == '_'
    ensures s != [] && s[0] == '_' ==> |r| < |s|
  {
    if s != [] && s[0] == '_' then TrimUnderscores(s[1..]) else s
  }

  predicate IsDigit(c: char) {
    '0' <= c <= '9'
  }

  predicate AllDigits(s: string) {
    forall i :: 0 <= i < |s| ==> IsDigit(s[i])
  }

  /** The value of a string of decimal digits, most significant digit first. */
  function DigitsValue(s: string): nat
    requires AllDigits(s)
  {
    if s == [] then 0 else DigitsValue(s[..|s| - 1]) * 10 + (s[|s| - 1] as int - '0' as int)
  }

  const U64_LIMIT: int := 0x1_0000_0000_0000_0000

  /**
   * Whether `s.parse::<u64>()` succeeds: an optional leading `+`, then at
   * least one decimal digit, with a value below 2^64.
   */
  predicate ParsesAsU64(s: string) {
    var digits := if s != [] && s[0] == '+' then s[1..] else s;
    digits != [] && AllDigits(digits) && DigitsValue(digits) < U64_LIMIT
  }

  predicate StartsWithTwoUnderscores(name: string) {
    |name| >= 2 && name[0] == '_' && name[1] == '_'
  }

  /** The name part of the display (variable/mod.rs:100-106). */
  function DisplayName(name: string): (shown: string)
    ensures shown == name || (StartsWithTwoUnderscores(name) && ParsesAsU64(shown) && |shown| < |name|)
  {
    if StartsWithTwoUnderscores(name) then
      var rest := TrimUnderscores(name);
      if ParsesAsU64(rest) then rest else name
    else name
  }

  /** `impl Display for VariableIdentity`. */
  function Render(id: VariableIdentity): string {
    var prefix := if id.namespace == [] then "" else Join(id.namespace, "::") + "::";
    match id.name
    case None => prefix + "{unknown}"
    case Some(n) => prefix + DisplayName(n)
  }

  /** A run of `k` underscores. */
  function Underscores(k: nat): (r: string)
    ensures |r| == k && forall i :: 0 <= i < k ==> r[i] == '_'
  {
    seq(k, _ => '_')
  }

  lemma {:induction false} TrimUnderscoresOfRun(k: nat, rest: string)
    requires rest == [] || rest[0] != '_'
    ensures TrimUnderscores(Underscores(k) + rest) == rest
  {
    if k > 0 {
      assert (Underscores(k) + rest)[1..] == Underscores(k - 1) + rest;
      TrimUnderscoresOfRun(k - 1, rest);
    } else {
      assert Underscores(k) + rest == rest;
    }
  }

  /**
   * A name made of two or more underscores followed by a 64-bit unsigned
   * number in decimal displays as that number alone.
   */
  lemma DisplayNameOfNumberedName(k: nat, digits: string)
    requires k >= 2
    requires digits != [] && AllDigits(digits) && DigitsValue(digits) < U64_LIMIT
    ensures DisplayName(Underscores(k) + digits) == digits
  {
    assert digits[0] != '_' by { assert IsDigit(digits[0]); }
    TrimUnderscoresOfRun(k, digits);
    var name := Underscores(k) + digits;
    assert StartsWithTwoUnderscores(name) by {
      assert name[0] == Underscores(k)[0] && name[1] == Underscores(k)[1];
    }
    assert ParsesAsU64(digits) by {
      assert digits[0] != '+';
    }
  }

  /**
   * The display changes a name only by dropping its leading underscores, and
   * only when the name starts with `__` and what follows parses as a u64.
   */
  lemma DisplayNameChangesOnlyNumbered(name: string)
    ensures DisplayName(name) == name
         || (StartsWithTwoUnderscores(name) && ParsesAsU64(DisplayName(name))
             && name == Underscores(|name| - |DisplayName(name)|) + DisplayName(name))
  {
    if StartsWithTwoUnderscores(name) && ParsesAsU64(TrimUnderscores(name)) {
      assert DisplayName(name) == TrimUnderscores(name);
      TrimmedNameSplits(name);
    } else {
      assert DisplayName(name) == name;
    }
  }

  /** A name is its leading underscores followed by what trimming them leaves. */
  lemma TrimmedNameSplits(name: string)
    ensures name == Underscores(|name| - |TrimUnderscores(name)|) + TrimUnderscores(name)
  {
    var r := TrimUnderscores(name);
    var k := |name| - |r|;
    var u := Underscores(k);
    assert name == u + r by {
      assert |name| == |u + r|;
      forall i | 0 <= i < |name|
        ensures name[i] == (u + r)[i]
      {
        if i < k {
          assert name[i] == '_';
        } else {
          assert name[i] == r[i - k];
        }
      }
    }
  }

  /** Without a namespace, the display is the displayed name, or `{unknown}`. */
  lemma RenderWithoutNamespace(name: Option<string>)
    ensures Render(NoNamespace(name)) == if name.Some? then DisplayName(name.value) else "{unknown}"
  {
  }

  /**
   * With a namespace, the display is the joined path, `::`, then the
   * displayed name or `{unknown}`.
   */
  lemma RenderWithNamespace(id: VariableIdentity)
    requires id.namespace != []
    ensures Render(id) == Join(id.namespace, "::") + "::"
                          + (if id.name.Some? then DisplayName(id.name.value) else "{unknown}")
  {
  }

  /** Two namespace levels and a tuple field `__<n>`: `ns1::ns2::<n>`. */
  lemma RenderTwoLevels(ns1: string, ns2: string, k: nat, digits: string)
    requires k >= 2
    requires digits != [] && AllDigits(digits) && DigitsValue(digits) < U64_LIMIT
    ensures Render(VariableIdentity([ns1, ns2], Some(Underscores(k) + digits))) == ns1 + "::" + ns2 + "::" + digits
  {
    DisplayNameOfNumberedName(k, digits);
    var path := Join([ns1, ns2], "::");
    assert path == ns1 + "::" + ns2 by {
      assert [ns1, ns2][1..] == [ns2];
      assert Join([ns2], "::") == ns2;
    }
    assert Render(VariableIdentity([ns1, ns2], Some(Underscores(k) + digits))) == path + "::" + digits;
  }

  /** One namespace level and no name: `ns::{unknown}`. */
  lemma RenderUnnamed(ns: string)
    ensures Render(VariableIdentity([ns], None)) == ns + "::{unknown}"
  {
    assert Join([ns], "::") == ns;
  }
}
