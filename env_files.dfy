/**
 * The candidate file list: which `.env*` files are consulted for an
 * execution mode, in precedence order (first listed wins).
 */
module EnvFiles {
  import opened Wrappers

  /** The execution modes the loader accepts. */
  const ValidModes: seq<string> := ["development", "test", "production"]

  /** Thrown when the mode is set to anything outside `ValidModes`. */
  datatype InvalidModeError = InvalidModeError(mode: string)

  /** JavaScript truthiness of a `string | undefined`: absent and empty are both unset. */
  predicate IsSet(mode: Option<string>)
  {
    mode.Some? && mode.value != ""
  }

  /**
   * `filter(Boolean)` over the slots of the candidate array literal, where a
   * slot is a file name or `false` (here `None`): the truthy slots, in order.
   */
  function KeepTruthy(slots: seq<Option<string>>): (r: seq<string>)
    ensures |r| <= |slots|
    ensures forall i :: 0 <= i < |r| ==> r[i] != ""
    ensures |slots| > 0 && IsSet(slots[|slots| - 1]) ==> |r| > 0 && r[|r| - 1] == slots[|slots| - 1].value
  {
    if slots == [] then []
    else
      (if IsSet(slots[0]) then [slots[0].value] else []) + KeepTruthy(slots[1..])
  }

  /** The candidate files for `mode`, or the error thrown for an unrecognised mode. */
  function GetFiles(mode: Option<string>): (r: Result<seq<string>, InvalidModeError>)
    ensures r.Failure? <==> IsSet(mode) && mode.value !in ValidModes
    ensures r.Failure? ==> r.error == InvalidModeError(mode.value)
    ensures r.Success? ==> |r.value| > 0 && r.value[|r.value| - 1] == ".env"
    ensures r.Success? ==> forall i :: 0 <= i < |r.value| ==> r.value[i] != ""
  {
    if IsSet(mode) && mode.value !in ValidModes then
      Failure(InvalidModeError(mode.value))
    else if !IsSet(mode) then
      Success([".env.local", ".env"])
    else
      var m := mode.value;
      Success(KeepTruthy([
        Some(".env." + m + ".local"),
        if m != "test" then Some(".env.local") else None,
        Some(".env." + m),
        Some(".env")
      ]))
  }

  /** Without a mode only the two mode-independent files are consulted, and nothing is thrown. */
  lemma NoModeFiles(mode: Option<string>)
    requires !IsSet(mode)
    ensures GetFiles(mode) == Success([".env.local", ".env"])
  {
  }

  /** `filter(Boolean)` distributes over concatenation: it keeps the slots' order. */
  lemma {:induction false} KeepTruthyAppend(a: seq<Option<string>>, b: seq<Option<string>>)
    ensures KeepTruthy(a + b) == KeepTruthy(a) + KeepTruthy(b)
  {
    if a == [] {
      assert a + b == b;
    } else {
      var head := if IsSet(a[0]) then [a[0].value] else [];
      assert (a + b)[0] == a[0] && (a + b)[1..] == a[1..] + b;
      KeepTruthyAppend(a[1..], b);
      calc {
        KeepTruthy(a + b);
        head + KeepTruthy(a[1..] + b);
        head + (KeepTruthy(a[1..]) + KeepTruthy(b));
        (head + KeepTruthy(a[1..])) + KeepTruthy(b);
        KeepTruthy(a) + KeepTruthy(b);
      }
    }
  }

  /** A name is in the filtered list exactly when some slot holds it. */
  lemma {:induction false} KeepTruthyKeepsSetSlots(slots: seq<Option<string>>, x: string)
    ensures x in KeepTruthy(slots) <==>
      exists i :: 0 <= i < |slots| && IsSet(slots[i]) && slots[i].value == x
  {
    if slots != [] {
      KeepTruthyKeepsSetSlots(slots[1..], x);
      if x in KeepTruthy(slots[1..]) {
        var i :| 0 <= i < |slots[1..]| && IsSet(slots[1..][i]) && slots[1..][i].value == x;
        assert slots[i + 1] == slots[1..][i];
      }
      if exists i :: 0 <= i < |slots| && IsSet(slots[i]) && slots[i].value == x {
        var i :| 0 <= i < |slots| && IsSet(slots[i]) && slots[i].value == x;
        if i > 0 {
          assert slots[1..][i - 1] == slots[i];
        }
      }
    }
  }

  /**
   * `filter(Boolean)` on the four-slot candidate literal, whose first, third
   * and fourth slots are names: the second is kept only when it is a name.
   */
  lemma {:induction false} KeepTruthyFour(a: Option<string>, b: Option<string>, c: Option<string>, d: Option<string>)
    requires IsSet(a) && IsSet(c) && IsSet(d)
    ensures KeepTruthy([a, b, c, d]) == [a.value] + (if IsSet(b) then [b.value] else []) + [c.value, d.value]
  {
    var tail := KeepTruthy([b, c, d]);
    assert [a, b, c, d][0] == a && [a, b, c, d][1..] == [b, c, d];
    assert KeepTruthy([a, b, c, d]) == [a.value] + tail;
    assert [b, c, d][0] == b && [b, c, d][1..] == [c, d];
    assert tail == (if IsSet(b) then [b.value] else []) + KeepTruthy([c, d]);
    assert [c, d][0] == c && [c, d][1..] == [d];
    assert [d][0] == d && [d][1..] == [];
    assert KeepTruthy([d]) == [d.value] + KeepTruthy([]);
    assert KeepTruthy([c, d]) == [c.value] + KeepTruthy([d]);
    assert KeepTruthy([c, d]) == [c.value, d.value];
  }

  /** `development` and `production` consult four files, mode-specific local first. */
  lemma DevelopmentOrProductionFiles(m: string)
    requires m == "development" || m == "production"
    ensures GetFiles(Some(m)) == Success([".env." + m + ".local", ".env.local", ".env." + m, ".env"])
  {
    assert m in ValidModes && m != "test" && IsSet(Some(m));
    var a, b, c, d := Some(".env." + m + ".local"), Some(".env.local"), Some(".env." + m), Some(".env");
    assert IsSet(a) && IsSet(b) && IsSet(c) && IsSet(d);
    KeepTruthyFour(a, b, c, d);
    assert GetFiles(Some(m)) == Success(KeepTruthy([a, b, c, d]));
    assert [a.value] + [b.value] + [c.value, d.value] == [a.value, b.value, c.value, d.value];
  }

  /** `test` consults three files and never `.env.local`. */
  lemma TestFiles()
    ensures GetFiles(Some("test")) == Success([".env.test.local", ".env.test", ".env"])
    ensures ".env.local" !in GetFiles(Some("test")).value
  {
    assert "test" in ValidModes && IsSet(Some("test"));
    var a, c, d := Some(".env." + "test" + ".local"), Some(".env." + "test"), Some(".env");
    assert a.value == ".env.test.local" && c.value == ".env.test";
    assert IsSet(a) && IsSet(c) && IsSet(d);
    KeepTruthyFour(a, None, c, d);
    assert GetFiles(Some("test")) == Success(KeepTruthy([a, None, c, d]));
    assert [a.value] + [] + [c.value, d.value] == [a.value, c.value, d.value];
    assert ".env.local" != ".env.test.local" && ".env.local" != ".env.test";
  }

  /** `.env.local` is a candidate exactly when the mode is accepted and is not `test`. */
  lemma LocalFileUnlessTest(mode: Option<string>)
    requires GetFiles(mode).Success?
    ensures ".env.local" in GetFiles(mode).value <==> mode != Some("test")
  {
    if !IsSet(mode) {
      NoModeFiles(mode);
    } else if mode.value == "test" {
      TestFiles();
    } else {
      DevelopmentOrProductionFiles(mode.value);
    }
  }
}
