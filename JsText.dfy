// The few JavaScript string built-ins and value conventions the chat engine
// relies on: `null` as an option, truthiness of `string | null`, the
// whitespace class shared by `\s` and `String.prototype.trim`, the ASCII
// word class `\w`, `toLowerCase`, `trim`, `includes` and `Array.join`.
module JsText {

  /** `T | null`: a value that may be absent. */
  datatype Option<+T> = None | Some(value: T)

  /** JavaScript truthiness of a `string | null`: neither null nor empty. */
  predicate Truthy(s: Option<string>) {
    s.Some? && s.value != ""
  }

  /** The characters matched by `\s` and removed by `trim` (ECMAScript
      WhiteSpace and LineTerminator). */
  predicate IsSpace(c: char) {
    var n := c as int;
    n == 0x09 || n == 0x0A || n == 0x0B || n == 0x0C || n == 0x0D || n == 0x20 ||
    n == 0xA0 || n == 0x1680 || (0x2000 <= n <= 0x200A) ||
    n == 0x2028 || n == 0x2029 || n == 0x202F || n == 0x205F || n == 0x3000 || n == 0xFEFF
  }

  /** The characters matched by `\w` in a regular expression without the `u`
      flag: ASCII letters, ASCII digits and the underscore. */
  predicate IsWordChar(c: char) {
    ('a' <= c <= 'z') || ('A' <= c <= 'Z') || ('0' <= c <= '9') || c == '_'
  }

  /** The upper-case letters whose lower-case form this model knows: ASCII
      A-Z and the Latin-1 capitals U+00C0..U+00DE except the sign U+00D7. */
  predicate IsUpper(c: char) {
    ('A' <= c <= 'Z') || (0xC0 <= c as int <= 0xDE && c as int != 0xD7)
  }

  function ToLowerChar(c: char): (r: char)
    ensures IsUpper(c) ==> r as int == c as int + 32
    ensures !IsUpper(c) ==> r == c
    ensures !IsUpper(r)
  {
    if IsUpper(c) then (c as int + 32) as char else c
  }

  /** `toLowerCase`, one character at a time. */
  function Lower(s: string): string {
    if s == [] then [] else [ToLowerChar(s[0])] + Lower(s[1..])
  }

  /** `Lower` works character by character. */
  lemma {:induction false} LowerAt(s: string)
    ensures |Lower(s)| == |s|
    ensures forall i :: 0 <= i < |s| ==> Lower(s)[i] == ToLowerChar(s[i])
  {
    if s != [] {
      LowerAt(s[1..]);
    }
  }

  /** A string without characters that `Lower` would change is its own lower-case form. */
  lemma LowerOfLower(s: string)
    requires forall i :: 0 <= i < |s| ==> !IsUpper(s[i])
    ensures Lower(s) == s
  {
    LowerAt(s);
  }

  /** Drops leading whitespace. */
  function TrimStart(s: string): string {
    if |s| > 0 && IsSpace(s[0]) then TrimStart(s[1..]) else s
  }

  /** Drops trailing whitespace. */
  function TrimEnd(s: string): string {
    if |s| > 0 && IsSpace(s[|s| - 1]) then TrimEnd(s[..|s| - 1]) else s
  }

  /** `trim`. */
  function Trim(s: string): string {
    TrimEnd(TrimStart(s))
  }

  /** `TrimStart` removes a prefix made of whitespace only, and what it keeps does not start with whitespace. */
  lemma {:induction false} TrimStartShape(s: string)
    ensures var r := TrimStart(s);
      && |r| <= |s| && r == s[|s| - |r|..]
      && (r == [] || !IsSpace(r[0]))
      && (forall i :: 0 <= i < |s| - |r| ==> IsSpace(s[i]))
  {
    if |s| > 0 && IsSpace(s[0]) {
      var r := TrimStart(s[1..]);
      TrimStartShape(s[1..]);
      assert TrimStart(s) == r;
      assert s[|s| - |r|..] == s[1..][|s| - 1 - |r|..];
      forall i | 0 <= i < |s| - |r|
        ensures IsSpace(s[i])
      {
        if i > 0 {
          assert s[i] == s[1..][i - 1];
        }
      }
    }
  }

  /** `TrimEnd` removes a suffix made of whitespace only, and what it keeps does not end with whitespace. */
  lemma {:induction false} TrimEndShape(s: string)
    ensures var r := TrimEnd(s);
      && |r| <= |s| && r == s[..|r|]
      && (r == [] || !IsSpace(r[|r| - 1]))
      && (forall i :: |r| <= i < |s| ==> IsSpace(s[i]))
  {
    if |s| > 0 && IsSpace(s[|s| - 1]) {
      TrimEndShape(s[..|s| - 1]);
    }
  }

  /** `r` is the infix of `s` starting at `k`, and everything in `s` around it is whitespace. */
  predicate InfixAmidSpace(r: string, s: string, k: int) {
    0 <= k && k + |r| <= |s| && r == s[k..k + |r|] &&
    forall i :: 0 <= i < |s| && (i < k || k + |r| <= i) ==> IsSpace(s[i])
  }

  /** `trim` keeps an infix of its input that neither starts nor ends with
      whitespace, everything outside that infix is whitespace, and the result
      is empty exactly when the input is all whitespace. */
  lemma TrimShape(s: string)
    ensures var r := Trim(s);
      && |r| <= |s| && (forall c :: c in r ==> c in s)
      && (r == [] || (!IsSpace(r[0]) && !IsSpace(r[|r| - 1])))
      && (r == [] <==> forall i :: 0 <= i < |s| ==> IsSpace(s[i]))
      && (exists k :: InfixAmidSpace(r, s, k))
  {
    var t := TrimStart(s);
    TrimStartShape(s);
    TrimEndShape(t);
    var r := TrimEnd(t);
    assert forall c :: c in r ==> c in t;
    var k := |s| - |t|;
    assert r == s[k..k + |r|];
    forall i | 0 <= i < |s| && (i < k || k + |r| <= i)
      ensures IsSpace(s[i])
    {
      if k + |r| <= i {
        assert s[i] == t[i - k];
      }
    }
    assert InfixAmidSpace(r, s, k);
  }

  /** Trimming a string that already has no whitespace at either end changes nothing. */
  lemma TrimTrimmed(s: string)
    requires s == [] || (!IsSpace(s[0]) && !IsSpace(s[|s| - 1]))
    ensures Trim(s) == s
  {
    assert TrimStart(s) == s;
    assert TrimEnd(s) == s;
  }

  /** `haystack.includes(needle)`. */
  function Contains(haystack: string, needle: string): bool
    decreases |haystack|
  {
    if |needle| > |haystack| then false
    else if haystack[..|needle|] == needle then true
    else |haystack| > 0 && Contains(haystack[1..], needle)
  }

  /** Every string contains each of its infixes. */
  lemma {:induction false} ContainsInfix(x: string, needle: string, z: string)
    ensures Contains(x + needle + z, needle)
    decreases |x|
  {
    var s := x + needle + z;
    if x == [] {
      assert s[..|needle|] == needle;
    } else {
      assert s[1..] == x[1..] + needle + z;
      ContainsInfix(x[1..], needle, z);
    }
  }

  /** `needle` occurs in `haystack` starting at index `k`. */
  predicate OccursAt(haystack: string, needle: string, k: int) {
    0 <= k && k + |needle| <= |haystack| && haystack[k..k + |needle|] == needle
  }

  /** `includes` holds exactly when the needle occurs at some index. */
  lemma {:induction false} ContainsOccurs(haystack: string, needle: string)
    ensures Contains(haystack, needle) <==> exists k :: OccursAt(haystack, needle, k)
    decreases |haystack|
  {
    if |needle| > |haystack| {
    } else if haystack[..|needle|] == needle {
      assert OccursAt(haystack, needle, 0);
    } else {
      var tail := haystack[1..];
      ContainsOccurs(tail, needle);
      if k :| OccursAt(tail, needle, k) {
        assert haystack[k + 1..k + 1 + |needle|] == tail[k..k + |needle|];
        assert OccursAt(haystack, needle, k + 1);
      }
      if k :| OccursAt(haystack, needle, k) {
        assert k != 0;
        assert tail[k - 1..k - 1 + |needle|] == haystack[k..k + |needle|];
        assert OccursAt(tail, needle, k - 1);
      }
    }
  }

  /** What a string contains, any extension of it contains too. */
  lemma {:induction false} ContainsExtended(x: string, s: string, z: string, needle: string)
    requires Contains(s, needle)
    ensures Contains(x + s + z, needle)
    decreases |x| + |s|
  {
    if x != [] {
      assert (x + s + z)[1..] == x[1..] + s + z;
      ContainsExtended(x[1..], s, z, needle);
    } else if s[..|needle|] == needle {
      ContainsInfix([], needle, s[|needle|..] + z);
      assert [] + needle + (s[|needle|..] + z) == x + s + z;
    } else {
      var t := x + s + z;
      assert |s| > 0 && Contains(s[1..], needle);
      ContainsExtended([], s[1..], z, needle);
      assert t[1..] == [] + s[1..] + z;
    }
  }

  /** A string that contains a needle contains every prefix of that needle. */
  lemma {:induction false} ContainsNeedlePrefix(haystack: string, needle: string, rest: string)
    requires Contains(haystack, needle + rest)
    ensures Contains(haystack, needle)
    decreases |haystack|
  {
    var full := needle + rest;
    if haystack[..|full|] == full {
      assert haystack[..|needle|] == full[..|needle|] == needle;
    } else {
      ContainsNeedlePrefix(haystack[1..], needle, rest);
    }
  }

  /** `parts.join(sep)`. */
  function Join(parts: seq<string>, sep: string): string
  {
    if |parts| == 0 then ""
    else if |parts| == 1 then parts[0]
    else parts[0] + sep + Join(parts[1..], sep)
  }

  /** A joined string contains every part. */
  lemma {:induction false} JoinContainsParts(parts: seq<string>, sep: string, j: nat)
    requires j < |parts|
    ensures Contains(Join(parts, sep), parts[j])
  {
    if |parts| == 1 {
      ContainsInfix([], parts[0], []);
      assert [] + parts[0] + [] == Join(parts, sep);
    } else if j == 0 {
      ContainsInfix([], parts[0], sep + Join(parts[1..], sep));
      assert [] + parts[0] + (sep + Join(parts[1..], sep)) == Join(parts, sep);
    } else {
      JoinContainsParts(parts[1..], sep, j - 1);
      ContainsExtended(parts[0] + sep, Join(parts[1..], sep), [], parts[j]);
      assert parts[0] + sep + Join(parts[1..], sep) + [] == Join(parts, sep);
    }
  }
}
