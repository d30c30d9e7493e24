/**
 * The file name warcmount gives a record: its URL with every path separator
 * replaced, so that the whole URL becomes one path segment of the flat
 * namespace.
 *
 * The replacer works on the bytes of the Go string. '/' and '\\' are ASCII,
 * and no byte of a multi-byte UTF-8 sequence is ASCII, so replacing them
 * character by character, as here, gives the same name.
 */
module Names {

  /** The character written in place of each separator. */
  const Substitute: char := '_'

  predicate IsSeparator(c: char)
  {
    c == '/' || c == '\\'
  }

  /** How one character of the URL appears in the name. */
  function Replace(c: char): char
  {
    if IsSeparator(c) then Substitute else c
  }

  /**
   * The name made from a URL: separators become the substitute and every
   * other character is kept in its place.
   */
  function Sanitise(url: string): (name: string)
    ensures |name| == |url|
    ensures forall i :: 0 <= i < |url| && IsSeparator(url[i]) ==> name[i] == Substitute
    ensures forall i :: 0 <= i < |url| && !IsSeparator(url[i]) ==> name[i] == url[i]
    ensures forall i :: 0 <= i < |name| ==> !IsSeparator(name[i])
  {
    if url == [] then [] else [Replace(url[0])] + Sanitise(url[1..])
  }

  /** A name is already a single segment: sanitising it again changes nothing. */
  lemma SanitiseIdempotent(url: string)
    ensures Sanitise(Sanitise(url)) == Sanitise(url)
  {
    var name := Sanitise(url);
    assert forall i :: 0 <= i < |name| ==> Sanitise(name)[i] == name[i];
  }

  /** The character of a name at position i is the replaced URL character. */
  lemma SanitiseAt(url: string, i: nat)
    requires i < |url|
    ensures Sanitise(url)[i] == Replace(url[i])
  {
  }

  /** Pointwise agreement of the replaced characters. */
  ghost predicate SameReplaced(u: string, v: string)
  {
    |u| == |v| && forall i :: 0 <= i < |u| ==> Replace(u[i]) == Replace(v[i])
  }

  /**
   * Two URLs get the same name exactly when they have the same length and
   * differ only where one holds a separator and the other a separator or the
   * substitute. Names are not disambiguated, so such records collide.
   */
  lemma SanitiseCollision(u: string, v: string)
    ensures Sanitise(u) == Sanitise(v) <==> SameReplaced(u, v)
  {
    if Sanitise(u) == Sanitise(v) {
      forall i | 0 <= i < |u| ensures Replace(u[i]) == Replace(v[i]) {
        SanitiseAt(u, i);
        SanitiseAt(v, i);
      }
    }
    if SameReplaced(u, v) {
      forall i | 0 <= i < |u| ensures Sanitise(u)[i] == Sanitise(v)[i] {
        SanitiseAt(u, i);
        SanitiseAt(v, i);
      }
    }
  }

  /** A slash, a backslash and the substitute itself all give the same name. */
  lemma SeparatorsCollide()
    ensures Sanitise("a/b") == Sanitise("a\\b") == Sanitise("a_b") == "a_b"
  {
  }
}
