/** The avatar colour a username is drawn with (frontend/src/utils/avatar.ts). */
module Avatar {

  /** The palette, in the order the helper lists it. */
  const Colors: seq<string> := [
    "bg-blue-500", "bg-green-500", "bg-purple-500", "bg-pink-500", "bg-indigo-500",
    "bg-teal-500", "bg-orange-500", "bg-red-500", "bg-cyan-500", "bg-emerald-500"
  ]

  /** `username.split('').reduce((acc, char) => acc + char.charCodeAt(0), 0)`:
      the sum of the character codes, folded from the left. */
  function CharCodeSum(username: string): (sum: nat)
    ensures forall i :: 0 <= i < |username| ==> username[i] as nat <= sum
  {
    if username == [] then 0
    else
      var prefix := username[..|username| - 1];
      assert forall i :: 0 <= i < |prefix| ==> username[i] == prefix[i];
      CharCodeSum(prefix) + username[|username| - 1] as nat
  }

  /** `getAvatarColor`: the palette entry at the code sum modulo its length. */
  function GetAvatarColor(username: string): (color: string)
    ensures color in Colors
    ensures color == Colors[CharCodeSum(username) % |Colors|]
    ensures username == "" ==> color == "bg-blue-500"
  {
    Colors[CharCodeSum(username) % |Colors|]
  }

  /** The code sum of a concatenation is the sum of the parts' sums. */
  lemma {:induction false} CharCodeSumAppend(a: string, b: string)
    ensures CharCodeSum(a + b) == CharCodeSum(a) + CharCodeSum(b)
    decreases |b|
  {
    if b == [] {
      assert a + b == a;
    } else {
      var b' := b[..|b| - 1];
      assert (a + b)[..|a + b| - 1] == a + b';
      CharCodeSumAppend(a, b');
    }
  }

  /** The code sum depends only on which characters occur how often. */
  lemma {:induction false} CharCodeSumPermutation(a: string, b: string)
    requires multiset(a) == multiset(b)
    ensures CharCodeSum(a) == CharCodeSum(b)
    decreases |a|
  {
    if a != [] {
      var c := a[0];
      assert c in multiset(b);
      var j :| 0 <= j < |b| && b[j] == c;
      var rest := b[..j] + b[j + 1..];
      assert b == b[..j] + [c] + b[j + 1..];
      assert a == [c] + a[1..];
      assert multiset(b) == multiset(b[..j]) + multiset{c} + multiset(b[j + 1..]);
      assert multiset(a) == multiset{c} + multiset(a[1..]);
      assert multiset(rest) == multiset(b[..j]) + multiset(b[j + 1..]);
      assert multiset(a[1..]) == multiset(a) - multiset{c};
      assert multiset(rest) == multiset(b) - multiset{c};
      CharCodeSumPermutation(a[1..], rest);
      CharCodeSumAppend([c], a[1..]);
      CharCodeSumAppend(b[..j] + [c], b[j + 1..]);
      CharCodeSumAppend(b[..j], [c]);
      CharCodeSumAppend(b[..j], b[j + 1..]);
      assert CharCodeSum([c]) == c as nat by {
        assert [c][..0] == [];
      }
    }
  }

  /** Names made of the same characters, such as anagrams, share a colour. */
  lemma SameLettersSameColor(a: string, b: string)
    requires multiset(a) == multiset(b)
    ensures GetAvatarColor(a) == GetAvatarColor(b)
  {
    CharCodeSumPermutation(a, b);
  }
}
