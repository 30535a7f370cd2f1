/**
 * The PHP string builtins the view relies on: truthiness of a string,
 * `empty()`, `trim()` and `explode()`.
 */
module PhpStrings {

  /**
   * `if ($s)` for a string: every string but "" and "0" is true. PHP's
   * `empty($s)` is its negation.
   */
  predicate IsTruthy(s: string)
  {
    s != "" && s != "0"
  }

  /** The characters `trim()` strips by default: " \t\n\r\0\x0B". */
  predicate IsTrimmed(c: char)
  {
    c == ' ' || c == '\t' || c == '\n' || c == '\r' || c == '\0' || c == '\U{000B}'
  }

  /** `ltrim($s)` */
  function TrimLeft(s: string): string
  {
    if |s| > 0 && IsTrimmed(s[0]) then TrimLeft(s[1..]) else s
  }

  /** `rtrim($s)` */
  function TrimRight(s: string): string
  {
    if |s| > 0 && IsTrimmed(s[|s| - 1]) then TrimRight(s[..|s| - 1]) else s
  }

  /** `ltrim` removes the longest prefix of stripped characters. */
  lemma {:induction false} TrimLeftSpec(s: string)
    ensures var r := TrimLeft(s);
      |r| <= |s| && r == s[|s| - |r|..] &&
      (forall i :: 0 <= i < |s| - |r| ==> IsTrimmed(s[i])) &&
      (r == "" || !IsTrimmed(r[0]))
    decreases |s|
  {
    if |s| > 0 && IsTrimmed(s[0]) {
      TrimLeftSpec(s[1..]);
    }
  }

  /** `rtrim` removes the longest suffix of stripped characters. */
  lemma {:induction false} TrimRightSpec(s: string)
    ensures var r := TrimRight(s);
      |r| <= |s| && r == s[..|r|] &&
      (forall i :: |r| <= i < |s| ==> IsTrimmed(s[i])) &&
      (r == "" || !IsTrimmed(r[|r| - 1]))
    decreases |s|
  {
    if |s| > 0 && IsTrimmed(s[|s| - 1]) {
      TrimRightSpec(s[..|s| - 1]);
    }
  }

  /** `trim($s)` */
  function Trim(s: string): string
  {
    TrimLeft(TrimRight(s))
  }

  /** `trim($s)` is "" exactly when `$s` consists of stripped characters only. */
  lemma TrimEmpty(s: string)
    ensures Trim(s) == "" <==> forall i :: 0 <= i < |s| ==> IsTrimmed(s[i])
  {
    var t := TrimRight(s);
    TrimRightSpec(s);
    TrimLeftSpec(t);
  }

  /** `implode($sep, $parts)` */
  function Implode(sep: char, parts: seq<string>): string
    requires |parts| >= 1
    decreases |parts|
  {
    if |parts| == 1 then parts[0] else parts[0] + [sep] + Implode(sep, parts[1..])
  }

  /** `explode($sep, $s)`: the pieces between the separators; there is always one. */
  function Explode(sep: char, s: string): (parts: seq<string>)
    ensures |parts| >= 1
    decreases |s|
  {
    if |s| == 0 then [""]
    else
      var rest := Explode(sep, s[1..]);
      if s[0] == sep then [""] + rest
      else [[s[0]] + rest[0]] + rest[1..]
  }

  /** No piece holds the separator, and gluing the pieces back together gives `$s`. */
  lemma {:induction false} ExplodeSpec(sep: char, s: string)
    ensures forall i :: 0 <= i < |Explode(sep, s)| ==> sep !in Explode(sep, s)[i]
    ensures Implode(sep, Explode(sep, s)) == s
    decreases |s|
  {
    if |s| > 0 {
      ExplodeSpec(sep, s[1..]);
      var rest := Explode(sep, s[1..]);
      if s[0] == sep {
        assert ([""] + rest)[1..] == rest;
      } else {
        var parts := [[s[0]] + rest[0]] + rest[1..];
        if |rest| > 1 {
          assert parts[1..] == rest[1..];
        }
      }
    }
  }

  /** Exploding the glued pieces gives the pieces back. */
  lemma {:induction false} ExplodeImplode(sep: char, parts: seq<string>)
    requires |parts| >= 1
    requires forall i :: 0 <= i < |parts| ==> sep !in parts[i]
    ensures Explode(sep, Implode(sep, parts)) == parts
    decreases |parts|
  {
    if |parts| == 1 {
      ExplodePlain(sep, parts[0]);
    } else {
      ExplodePlain(sep, parts[0]);
      ExplodeImplode(sep, parts[1..]);
      ExplodeAfterPiece(sep, parts[0], Implode(sep, parts[1..]));
    }
  }

  /** A string without the separator explodes into itself alone. */
  lemma {:induction false} ExplodePlain(sep: char, s: string)
    requires sep !in s
    ensures Explode(sep, s) == [s]
    decreases |s|
  {
    if |s| > 0 {
      ExplodePlain(sep, s[1..]);
      assert [s[0]] + s[1..] == s;
    }
  }

  /** A piece without the separator, then the separator: the piece comes first. */
  lemma {:induction false} ExplodeAfterPiece(sep: char, piece: string, rest: string)
    requires sep !in piece
    ensures Explode(sep, piece + [sep] + rest) == [piece] + Explode(sep, rest)
    decreases |piece|
  {
    if |piece| == 0 {
      assert piece + [sep] + rest == [sep] + rest;
      assert ([sep] + rest)[1..] == rest;
    } else {
      assert (piece + [sep] + rest)[1..] == piece[1..] + [sep] + rest;
      ExplodeAfterPiece(sep, piece[1..], rest);
      assert [piece[0]] + piece[1..] == piece;
    }
  }

  /**
   * The first piece of `explode($sep, $s)` is the text before the first
   * separator, or all of `$s` when there is none.
   */
  lemma {:induction false} ExplodeFirst(sep: char, s: string)
    ensures var p := Explode(sep, s)[0];
      |p| <= |s| && p == s[..|p|] && sep !in p && (|p| == |s| || s[|p|] == sep)
    decreases |s|
  {
    ExplodeSpec(sep, s);
    var parts := Explode(sep, s);
    if |parts| > 1 {
      assert Implode(sep, parts) == parts[0] + [sep] + Implode(sep, parts[1..]);
      assert s[..|parts[0]|] == parts[0];
      assert s[|parts[0]|] == sep;
    }
  }
}
