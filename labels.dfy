/** The label formatter of the upload page, `key.replace(/([A-Z])/g, ' $1')`:
    it turns a camel-case slot key into the words shown in notices by putting a
    space in front of every ASCII capital letter. */
module Labels {
  import opened Text

  /** A space before each capital, every other character copied. */
  function Spaced(key: string): (r: string)
    ensures |r| >= |key|
    ensures r == [] || !IsUpper(r[0])
    ensures forall i :: 0 <= i < |r| && IsUpper(r[i]) ==> 0 < i && r[i - 1] == ' '
    decreases |key|
  {
    if key == [] then []
    else if IsUpper(key[0]) then [' ', key[0]] + Spaced(key[1..])
    else [key[0]] + Spaced(key[1..])
  }

  /** The partner of `Spaced`: drops a space that stands right before a
      capital. */
  function Unspaced(s: string): string
    decreases |s|
  {
    if s == [] then []
    else if |s| >= 2 && s[0] == ' ' && IsUpper(s[1]) then [s[1]] + Unspaced(s[2..])
    else [s[0]] + Unspaced(s[1..])
  }

  /** Formatting loses nothing: the key comes back from its label, so two
      different keys never share a label. */
  lemma {:induction false} UnspacedSpaced(key: string)
    ensures Unspaced(Spaced(key)) == key
    decreases |key|
  {
    if key != [] {
      var rest := Spaced(key[1..]);
      UnspacedSpaced(key[1..]);
      if IsUpper(key[0]) {
        var s := [' ', key[0]] + rest;
        assert s[2..] == rest;
      } else {
        var s := [key[0]] + rest;
        assert s[1..] == rest;
        assert !(|s| >= 2 && s[0] == ' ' && IsUpper(s[1]));
      }
      assert [key[0]] + key[1..] == key;
    }
  }

  lemma SpacedInjective(a: string, b: string)
    requires Spaced(a) == Spaced(b)
    ensures a == b
  {
    UnspacedSpaced(a);
    UnspacedSpaced(b);
  }

  /** A key without capitals is shown as it is. */
  lemma {:induction false} SpacedLowerCase(key: string)
    requires forall i :: 0 <= i < |key| ==> !IsUpper(key[i])
    ensures Spaced(key) == key
    decreases |key|
  {
    if key != [] {
      SpacedLowerCase(key[1..]);
      assert [key[0]] + key[1..] == key;
    }
  }

  /** The replacement is applied to every character on its own. */
  lemma {:induction false} SpacedAppend(a: string, b: string)
    ensures Spaced(a + b) == Spaced(a) + Spaced(b)
    decreases |a|
  {
    if a == [] {
      assert a + b == b;
    } else {
      var ab := a + b;
      assert ab[0] == a[0];
      assert ab[1..] == a[1..] + b;
      SpacedAppend(a[1..], b);
      var h := if IsUpper(a[0]) then [' ', a[0]] else [a[0]];
      assert Spaced(ab) == h + Spaced(a[1..] + b);
      assert Spaced(a) == h + Spaced(a[1..]);
      Associative(h, Spaced(a[1..]), Spaced(b));
    }
  }

  lemma Associative(x: string, y: string, z: string)
    ensures x + (y + z) == x + y + z
  {
  }
}
