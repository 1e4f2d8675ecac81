/** Small helpers shared by the models of the database checker and the
    Omega file indexer: an optional value and the byte-string operations
    of std::string that both components lean on. */
module Common {

  datatype Option<T> = None | Some(value: T)

  predicate EndsWith(s: string, suffix: string)
  {
    |suffix| <= |s| && s[|s| - |suffix|..] == suffix
  }

  predicate IsUpperAscii(c: char)
  {
    'A' <= c <= 'Z'
  }

  /** tolower() in the C locale: only the 26 ASCII capitals change. */
  function ToLowerAscii(c: char): char
  {
    if IsUpperAscii(c) then (c as int + 32) as char else c
  }

  function LowerAscii(s: string): (r: string)
    ensures |r| == |s|
    ensures forall i :: 0 <= i < |s| ==> r[i] == ToLowerAscii(s[i])
  {
    seq(|s|, i requires 0 <= i < |s| => ToLowerAscii(s[i]))
  }

  /** Lower-casing only changes capitals, so doing it twice is doing it once,
      and a string without capitals is left alone. */
  lemma LowerAsciiIdempotent(s: string)
    ensures LowerAscii(LowerAscii(s)) == LowerAscii(s)
    ensures (forall i :: 0 <= i < |s| ==> !IsUpperAscii(s[i])) ==> LowerAscii(s) == s
    ensures forall i :: 0 <= i < |s| ==> !IsUpperAscii(LowerAscii(s)[i])
  {
  }

  /** std::string::find_last_of for one character: the index of the last
      occurrence of c in s, or None for string::npos. */
  function FindLast(s: string, c: char): (r: Option<nat>)
    ensures r.Some? ==> r.value < |s| && s[r.value] == c
    ensures r.Some? ==> forall j :: r.value < j < |s| ==> s[j] != c
    ensures r.None? ==> forall j :: 0 <= j < |s| ==> s[j] != c
    decreases |s|
  {
    if s == [] then None
    else if s[|s| - 1] == c then Some(|s| - 1)
    else FindLast(s[..|s| - 1], c)
  }

  /** std::string::find for one character, starting at index from: the
      first index at or after from holding c, or |s| for string::npos. */
  function FindFrom(s: string, c: char, from: nat): (r: nat)
    requires from <= |s|
    ensures from <= r <= |s|
    ensures r < |s| ==> s[r] == c
    decreases |s| - from
  {
    if from == |s| then |s|
    else if s[from] == c then from
    else FindFrom(s, c, from + 1)
  }

  /** FindFrom finds the first c: none comes before the index it returns. */
  lemma {:induction false} FindFromFirst(s: string, c: char, from: nat)
    requires from <= |s|
    ensures forall j :: from <= j < FindFrom(s, c, from) ==> s[j] != c
    decreases |s| - from
  {
    if from < |s| && s[from] != c {
      FindFromFirst(s, c, from + 1);
    }
  }
}
