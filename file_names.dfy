/** `RemoveInvalidChars`: strips every character the platform forbids in a
    file name. The platform's list (`Path.GetInvalidFileNameChars()`) is
    a parameter, in the order the platform returns it. */
module FileNames {
  import opened Text

  /** The characters listed in `chars`. */
  function CharSet(chars: seq<char>): set<char>
  {
    if chars == [] then {}
    else CharSet(chars[..|chars| - 1]) + {chars[|chars| - 1]}
  }

  /** `CharSet` holds exactly the listed characters. */
  lemma {:induction false} CharSetMembers(chars: seq<char>)
    ensures forall c :: c in CharSet(chars) <==> c in chars
  {
    if chars != [] {
      var init := chars[..|chars| - 1];
      CharSetMembers(init);
      assert chars == init + [chars[|chars| - 1]];
    }
  }

  /** Walks the invalid-character list and deletes each one that still occurs,
      exactly as the repeated `Replace` calls do. */
  method RemoveInvalidChars(invalidString: string, invalidChars: seq<char>) returns (formatted: string)
    ensures formatted == Remove(invalidString, CharSet(invalidChars))
  {
    formatted := invalidString;
    assert CharSet(invalidChars[..0]) == {};
    RemoveUnchangedIff(invalidString, {});
    for i := 0 to |invalidChars|
      invariant formatted == Remove(invalidString, CharSet(invalidChars[..i]))
    {
      var c := invalidChars[i];
      if c in formatted {
        formatted := Remove(formatted, {c});
      } else {
        RemoveUnchangedIff(formatted, {c});
      }
      RemoveTwice(invalidString, CharSet(invalidChars[..i]), {c});
      assert invalidChars[..i + 1][..i] == invalidChars[..i];
      assert CharSet(invalidChars[..i + 1]) == CharSet(invalidChars[..i]) + {c};
    }
    assert invalidChars[..|invalidChars|] == invalidChars;
  }

  /** Sanitising an already sanitised name changes nothing. */
  lemma SanitiseIdempotent(s: string, invalid: set<char>)
    ensures Remove(Remove(s, invalid), invalid) == Remove(s, invalid)
  {
    RemoveTwice(s, invalid, invalid);
    assert invalid + invalid == invalid;
  }
}
