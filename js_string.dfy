/**
 * `String.prototype.split` with a one-character separator, and its inverse
 * `Array.prototype.join`, on strings seen as sequences of characters.
 */
module JsString {

  /** The fields laid end to end with one `sep` between neighbours. */
  function Join(fields: seq<string>, sep: char): string
    requires |fields| >= 1
  {
    if |fields| == 1 then fields[0] else fields[0] + [sep] + Join(fields[1..], sep)
  }

  /** Joining a list whose head is `[c] + f` puts `c` in front of joining the list headed by `f`. */
  lemma JoinConsChar(c: char, f: string, rest: seq<string>, sep: char)
    ensures Join([[c] + f] + rest, sep) == [c] + Join([f] + rest, sep)
  {
    var a, b := [[c] + f] + rest, [f] + rest;
    assert a[1..] == rest && b[1..] == rest;
  }

  /**
   * The fields of `s` between occurrences of `sep`: `s.split(sep)` in
   * JavaScript. There is always at least one field, no field contains the
   * separator, and joining the fields gives `s` back.
   */
  function Split(s: string, sep: char): (fields: seq<string>)
    ensures |fields| >= 1
    ensures forall i :: 0 <= i < |fields| ==> sep !in fields[i]
    ensures Join(fields, sep) == s
  {
    if s == [] then [[]]
    else
      var rest := Split(s[1..], sep);
      if s[0] == sep then
        var r := [[]] + rest;
        assert r[1..] == rest;
        r
      else
        var r := [[s[0]] + rest[0]] + rest[1..];
        JoinConsChar(s[0], rest[0], rest[1..], sep);
        assert [rest[0]] + rest[1..] == rest;
        assert forall i :: 1 <= i < |r| ==> r[i] == rest[i];
        r
  }

  /**
   * Splitting is the only way to cut a string into separator-free fields:
   * any such fields that join to `s` are exactly `Split(s, sep)`.
   */
  lemma {:induction false} SplitJoin(fields: seq<string>, sep: char)
    requires |fields| >= 1
    requires forall i :: 0 <= i < |fields| ==> sep !in fields[i]
    ensures Split(Join(fields, sep), sep) == fields
    decreases |Join(fields, sep)|
  {
    var s := Join(fields, sep);
    var f := fields[0];
    if f != [] {
      var g := [f[1..]] + fields[1..];
      assert [f[0]] + f[1..] == f;
      assert g[1..] == fields[1..];
      JoinConsChar(f[0], f[1..], fields[1..], sep);
      assert [[f[0]] + f[1..]] + fields[1..] == fields;
      assert s == [f[0]] + Join(g, sep);
      assert s[1..] == Join(g, sep);
      assert forall i :: 1 <= i < |g| ==> g[i] == fields[i];
      SplitJoin(g, sep);
      assert fields == [[s[0]] + g[0]] + g[1..];
    } else if |fields| > 1 {
      var tail := fields[1..];
      assert s == [sep] + Join(tail, sep);
      assert s[1..] == Join(tail, sep);
      assert forall i :: 0 <= i < |tail| ==> tail[i] == fields[i + 1];
      SplitJoin(tail, sep);
      assert fields == [[]] + tail;
    }
  }
}
