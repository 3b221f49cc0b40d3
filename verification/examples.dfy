/** Worked instances of the shortener's word rules on concrete input. */
module Examples {
  import opened Text
  import opened Settings
  import opened Words
  import opened Shortener

  /** A configuration in the style of the program's sample one. */
  const Sample := Config(" -", "()", ["loop"], "_", "lower", false, 128, 64)

  /** The plural flip is a plain test on the last character: "drums" and "drum"
      reserve each other, "bus" reserves "bu", and upper-case "DRUMS" reserves
      "drumss" rather than "drum". */
  lemma FlipPluralExamples()
    ensures FlipPlural("drums") == "drum"
    ensures FlipPlural("drum") == "drums"
    ensures FlipPlural("bus") == "bu"
    ensures Lower(FlipPlural("DRUMS")) == "drumss"
  {
    assert "drums"[..4] == "drum";
    assert "bus"[..2] == "bu";
  }

  /** A folder "Drum" after a folder "Drums": every word is a duplicate. */
  lemma DrumAfterDrums()
    ensures RemoveDupeWords(["Drum"], RemoveDupeWords(["Drums"], {}).used).kept == []
  {
    DedupAgainstNothing(["Drums"]);
    FlipPluralExamples();
    assert Lower("Drums") == "drums";
    assert Lower(FlipPlural("Drums")) == "drum";
    assert Lower("Drum") == "drum";
  }

  /** "Loops" starts with the strike word "loop" and is dropped; "Drum" stays. */
  lemma StrikeLoops()
    ensures RemoveStrikeWords(["Drum", "Loops"], Sample) == ["Drum"]
  {
    var keep := (w: string) => !Struck(w, Sample);
    assert Lower("loop") == "loop";
    assert StrikePrefixes(Sample) == ["loop"];
    assert ["loop"][1..] == [];
    assert Lower("Loops") == "loops";
    assert Lower("Drum") == "drum";
    assert Struck("Loops", Sample);
    assert !StartsWith("drum", "loop") by {
      assert "drum"[..4][0] != "loop"[0];
    }
    assert !Struck("Drum", Sample);
    assert ["Drum", "Loops"][1..] == ["Loops"];
  }
}
