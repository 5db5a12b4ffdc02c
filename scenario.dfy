/** A worked example of the timeline builder on the transcript
    "Hello {a} world {b}", where "{a}" shows an image and "{b}" ends it. The aligner
    recognises "Hello" (offsets 0-5, 0.0 s to 0.5 s) and "world" (offsets 6-11, 0.6 s to
    1.0 s). The first marker is recorded at cleaned offset 5 and takes the start of "Hello";
    the second at offset 11 and takes the start of "world". */
module Scenario {
  import opened Wrappers
  import opened Gentle
  import opened Spec
  import Timeline

  const Transcript := "Hello {a} world {b}"

  const Start := Timeline.ImgStart("logo", Timeline.Rect(0, 0, 10, 10))

  /** The decoder, on the two marker texts of the example: a three-character text is
      decoded by the letter between its braces. */
  function Decode(text: string): Option<Decoded> {
    if |text| != 3 then None
    else if text[1] == 'a' then Some(Decoded("a", Start))
    else if text[1] == 'b' then Some(Decoded("a", Timeline.ImgEnd))
    else None
  }

  const Words := [
    GentleWord("success", Some(0.0), Some(0), Some(5), Some(0.5)),
    GentleWord("success", Some(0.6), Some(6), Some(11), Some(1.0))
  ]

  /** The aligner's answer for the example. */
  function Align(cleaned: string): Option<seq<GentleWord>> {
    Some(Words)
  }

  const Cleaned := "Hello world "

  // The cleaning loop's state after growing prefixes of the example transcript.

  lemma CleanExample0()
    ensures CleanPrefix(Transcript[..3]) == Success(CleanState(0, "Hel"))
  {
    assert Transcript[..0] == [];
    assert Transcript[0] == 'H';
    assert "" + ['H'] == "H";
    assert CleanStep(CleanState(0, ""), 'H', 0) == Success(CleanState(0, "H"));
    CleanPrefixNext(Transcript, 0);
    assert Transcript[1] == 'e';
    assert "H" + ['e'] == "He";
    assert CleanStep(CleanState(0, "H"), 'e', 1) == Success(CleanState(0, "He"));
    CleanPrefixNext(Transcript, 1);
    assert Transcript[2] == 'l';
    assert "He" + ['l'] == "Hel";
    assert CleanStep(CleanState(0, "He"), 'l', 2) == Success(CleanState(0, "Hel"));
    CleanPrefixNext(Transcript, 2);
  }

  lemma CleanExample1()
    ensures CleanPrefix(Transcript[..5]) == Success(CleanState(0, "Hello"))
  {
    CleanExample0();
    assert Transcript[3] == 'l';
    assert "Hel" + ['l'] == "Hell";
    assert CleanStep(CleanState(0, "Hel"), 'l', 3) == Success(CleanState(0, "Hell"));
    CleanPrefixNext(Transcript, 3);
    assert Transcript[4] == 'o';
    assert "Hell" + ['o'] == "Hello";
    assert CleanStep(CleanState(0, "Hell"), 'o', 4) == Success(CleanState(0, "Hello"));
    CleanPrefixNext(Transcript, 4);
  }

  lemma CleanExample2()
    ensures CleanPrefix(Transcript[..7]) == Success(CleanState(1, "Hello "))
  {
    CleanExample1();
    assert Transcript[5] == ' ';
    assert "Hello" + [' '] == "Hello ";
    assert CleanStep(CleanState(0, "Hello"), ' ', 5) == Success(CleanState(0, "Hello "));
    CleanPrefixNext(Transcript, 5);
    assert Transcript[6] == '{';
    assert CleanStep(CleanState(0, "Hello "), '{', 6) == Success(CleanState(1, "Hello "));
    CleanPrefixNext(Transcript, 6);
  }

  lemma CleanExample3()
    ensures CleanPrefix(Transcript[..9]) == Success(CleanState(0, "Hello "))
  {
    CleanExample2();
    assert Transcript[7] == 'a';
    assert CleanStep(CleanState(1, "Hello "), 'a', 7) == Success(CleanState(1, "Hello "));
    CleanPrefixNext(Transcript, 7);
    assert Transcript[8] == '}';
    assert CleanStep(CleanState(1, "Hello "), '}', 8) == Success(CleanState(0, "Hello "));
    CleanPrefixNext(Transcript, 8);
  }

  lemma CleanExample4()
    ensures CleanPrefix(Transcript[..10]) == Success(CleanState(0, "Hello "))
  {
    CleanExample3();
    assert Transcript[9] == ' ';
    assert CleanStep(CleanState(0, "Hello "), ' ', 9) == Success(CleanState(0, "Hello "));
    CleanPrefixNext(Transcript, 9);
  }

  lemma CleanExample5()
    ensures CleanPrefix(Transcript[..12]) == Success(CleanState(0, "Hello wo"))
  {
    CleanExample4();
    assert Transcript[10] == 'w';
    assert "Hello " + ['w'] == "Hello w";
    assert CleanStep(CleanState(0, "Hello "), 'w', 10) == Success(CleanState(0, "Hello w"));
    CleanPrefixNext(Transcript, 10);
    assert Transcript[11] == 'o';
    assert "Hello w" + ['o'] == "Hello wo";
    assert CleanStep(CleanState(0, "Hello w"), 'o', 11) == Success(CleanState(0, "Hello wo"));
    CleanPrefixNext(Transcript, 11);
  }

  lemma CleanExample6()
    ensures CleanPrefix(Transcript[..15]) == Success(CleanState(0, "Hello world"))
  {
    CleanExample5();
    assert Transcript[12] == 'r';
    assert "Hello wo" + ['r'] == "Hello wor";
    assert CleanStep(CleanState(0, "Hello wo"), 'r', 12) == Success(CleanState(0, "Hello wor"));
    CleanPrefixNext(Transcript, 12);
    assert Transcript[13] == 'l';
    assert "Hello wor" + ['l'] == "Hello worl";
    assert CleanStep(CleanState(0, "Hello wor"), 'l', 13) == Success(CleanState(0, "Hello worl"));
    CleanPrefixNext(Transcript, 13);
    assert Transcript[14] == 'd';
    assert "Hello worl" + ['d'] == "Hello world";
    assert CleanStep(CleanState(0, "Hello worl"), 'd', 14) == Success(CleanState(0, "Hello world"));
    CleanPrefixNext(Transcript, 14);
  }

  lemma CleanExample7()
    ensures CleanPrefix(Transcript[..17]) == Success(CleanState(1, "Hello world "))
  {
    CleanExample6();
    assert Transcript[15] == ' ';
    assert "Hello world" + [' '] == "Hello world ";
    assert CleanStep(CleanState(0, "Hello world"), ' ', 15) == Success(CleanState(0, "Hello world "));
    CleanPrefixNext(Transcript, 15);
    assert Transcript[16] == '{';
    assert CleanStep(CleanState(0, "Hello world "), '{', 16) == Success(CleanState(1, "Hello world "));
    CleanPrefixNext(Transcript, 16);
  }

  lemma CleanExample8()
    ensures CleanPrefix(Transcript[..19]) == Success(CleanState(0, "Hello world "))
  {
    CleanExample7();
    assert Transcript[17] == 'b';
    assert CleanStep(CleanState(1, "Hello world "), 'b', 17) == Success(CleanState(1, "Hello world "));
    CleanPrefixNext(Transcript, 17);
    assert Transcript[18] == '}';
    assert CleanStep(CleanState(1, "Hello world "), '}', 18) == Success(CleanState(0, "Hello world "));
    CleanPrefixNext(Transcript, 18);
  }

  // The marker scan's state after growing prefixes of the example transcript: the cleaned
  // offset advances only when the character read equals the cleaned character after it.

  lemma ScanExample0()
    ensures ScanPrefix(Transcript[..2], Cleaned, Decode) == Success(ScanState(1, "", 0, []))
  {
    assert Transcript[..0] == [];
    assert Transcript[0] == 'H';
    assert CharAtOr(Cleaned, 1, ' ') == 'e';
    ScanStepOutside(ScanState(0, "", 0, []), 'H', 0, Cleaned, Decode);
    ScanPrefixNext(Transcript, 0, Cleaned, Decode);
    assert Transcript[1] == 'e';
    assert CharAtOr(Cleaned, 1, ' ') == 'e';
    ScanStepOutside(ScanState(0, "", 0, []), 'e', 1, Cleaned, Decode);
    ScanPrefixNext(Transcript, 1, Cleaned, Decode);
  }

  lemma ScanExample1()
    ensures ScanPrefix(Transcript[..4], Cleaned, Decode) == Success(ScanState(3, "", 0, []))
  {
    ScanExample0();
    assert Transcript[2] == 'l';
    assert CharAtOr(Cleaned, 2, ' ') == 'l';
    ScanStepOutside(ScanState(1, "", 0, []), 'l', 2, Cleaned, Decode);
    ScanPrefixNext(Transcript, 2, Cleaned, Decode);
    assert Transcript[3] == 'l';
    assert CharAtOr(Cleaned, 3, ' ') == 'l';
    ScanStepOutside(ScanState(2, "", 0, []), 'l', 3, Cleaned, Decode);
    ScanPrefixNext(Transcript, 3, Cleaned, Decode);
  }

  lemma ScanExample2()
    ensures ScanPrefix(Transcript[..5], Cleaned, Decode) == Success(ScanState(4, "", 0, []))
  {
    ScanExample1();
    assert Transcript[4] == 'o';
    assert CharAtOr(Cleaned, 4, ' ') == 'o';
    ScanStepOutside(ScanState(3, "", 0, []), 'o', 4, Cleaned, Decode);
    ScanPrefixNext(Transcript, 4, Cleaned, Decode);
  }

  lemma ScanExample3()
    ensures ScanPrefix(Transcript[..6], Cleaned, Decode) == Success(ScanState(5, "", 0, []))
  {
    ScanExample2();
    assert Transcript[5] == ' ';
    assert CharAtOr(Cleaned, 5, ' ') == ' ';
    ScanStepOutside(ScanState(4, "", 0, []), ' ', 5, Cleaned, Decode);
    ScanPrefixNext(Transcript, 5, Cleaned, Decode);
  }

  lemma ScanExample4()
    ensures ScanPrefix(Transcript[..7], Cleaned, Decode) == Success(ScanState(5, "{", 1, []))
  {
    ScanExample3();
    assert Transcript[6] == '{';
    assert CharAtOr(Cleaned, 6, ' ') == 'w';
    assert "" + ['{'] == "{";
    ScanStepInside(ScanState(5, "", 0, []), '{', 6, Cleaned, Decode);
    ScanPrefixNext(Transcript, 6, Cleaned, Decode);
  }

  lemma ScanExample5()
    ensures ScanPrefix(Transcript[..8], Cleaned, Decode) == Success(ScanState(5, "{a", 1, []))
  {
    ScanExample4();
    assert Transcript[7] == 'a';
    assert CharAtOr(Cleaned, 6, ' ') == 'w';
    assert "{" + ['a'] == "{a";
    ScanStepInside(ScanState(5, "{", 1, []), 'a', 7, Cleaned, Decode);
    ScanPrefixNext(Transcript, 7, Cleaned, Decode);
  }

  lemma ScanExample6()
    ensures ScanPrefix(Transcript[..9], Cleaned, Decode) == Success(ScanState(5, "", 0, [Marker(5, "a", Start)]))
  {
    ScanExample5();
    assert Transcript[8] == '}';
    assert CharAtOr(Cleaned, 6, ' ') == 'w';
    assert "{a" + ['}'] == "{a}";
    assert [] + [Marker(5, "a", Start)] == [Marker(5, "a", Start)];
    assert Decode("{a}") == Some(Decoded("a", Start));
    assert ScanStep(ScanState(5, "{a", 1, []), '}', 8, Cleaned, Decode) == Success(ScanState(5, "", 0, [Marker(5, "a", Start)]));
    ScanPrefixNext(Transcript, 8, Cleaned, Decode);
  }

  lemma ScanExample7()
    ensures ScanPrefix(Transcript[..10], Cleaned, Decode) == Success(ScanState(5, "", 0, [Marker(5, "a", Start)]))
  {
    ScanExample6();
    assert Transcript[9] == ' ';
    assert CharAtOr(Cleaned, 6, ' ') == 'w';
    ScanStepOutside(ScanState(5, "", 0, [Marker(5, "a", Start)]), ' ', 9, Cleaned, Decode);
    ScanPrefixNext(Transcript, 9, Cleaned, Decode);
  }

  lemma ScanExample8()
    ensures ScanPrefix(Transcript[..12], Cleaned, Decode) == Success(ScanState(7, "", 0, [Marker(5, "a", Start)]))
  {
    ScanExample7();
    assert Transcript[10] == 'w';
    assert CharAtOr(Cleaned, 6, ' ') == 'w';
    ScanStepOutside(ScanState(5, "", 0, [Marker(5, "a", Start)]), 'w', 10, Cleaned, Decode);
    ScanPrefixNext(Transcript, 10, Cleaned, Decode);
    assert Transcript[11] == 'o';
    assert CharAtOr(Cleaned, 7, ' ') == 'o';
    ScanStepOutside(ScanState(6, "", 0, [Marker(5, "a", Start)]), 'o', 11, Cleaned, Decode);
    ScanPrefixNext(Transcript, 11, Cleaned, Decode);
  }

  lemma ScanExample9()
    ensures ScanPrefix(Transcript[..14], Cleaned, Decode) == Success(ScanState(9, "", 0, [Marker(5, "a", Start)]))
  {
    ScanExample8();
    assert Transcript[12] == 'r';
    assert CharAtOr(Cleaned, 8, ' ') == 'r';
    ScanStepOutside(ScanState(7, "", 0, [Marker(5, "a", Start)]), 'r', 12, Cleaned, Decode);
    ScanPrefixNext(Transcript, 12, Cleaned, Decode);
    assert Transcript[13] == 'l';
    assert CharAtOr(Cleaned, 9, ' ') == 'l';
    ScanStepOutside(ScanState(8, "", 0, [Marker(5, "a", Start)]), 'l', 13, Cleaned, Decode);
    ScanPrefixNext(Transcript, 13, Cleaned, Decode);
  }

  lemma ScanExample10()
    ensures ScanPrefix(Transcript[..15], Cleaned, Decode) == Success(ScanState(10, "", 0, [Marker(5, "a", Start)]))
  {
    ScanExample9();
    assert Transcript[14] == 'd';
    assert CharAtOr(Cleaned, 10, ' ') == 'd';
    ScanStepOutside(ScanState(9, "", 0, [Marker(5, "a", Start)]), 'd', 14, Cleaned, Decode);
    ScanPrefixNext(Transcript, 14, Cleaned, Decode);
  }

  lemma ScanExample11()
    ensures ScanPrefix(Transcript[..16], Cleaned, Decode) == Success(ScanState(11, "", 0, [Marker(5, "a", Start)]))
  {
    ScanExample10();
    assert Transcript[15] == ' ';
    assert CharAtOr(Cleaned, 11, ' ') == ' ';
    ScanStepOutside(ScanState(10, "", 0, [Marker(5, "a", Start)]), ' ', 15, Cleaned, Decode);
    ScanPrefixNext(Transcript, 15, Cleaned, Decode);
  }

  lemma ScanExample12()
    ensures ScanPrefix(Transcript[..17], Cleaned, Decode) == Success(ScanState(11, "{", 1, [Marker(5, "a", Start)]))
  {
    ScanExample11();
    assert Transcript[16] == '{';
    assert CharAtOr(Cleaned, 12, ' ') == ' ';
    assert "" + ['{'] == "{";
    ScanStepInside(ScanState(11, "", 0, [Marker(5, "a", Start)]), '{', 16, Cleaned, Decode);
    ScanPrefixNext(Transcript, 16, Cleaned, Decode);
  }

  lemma ScanExample13()
    ensures ScanPrefix(Transcript[..18], Cleaned, Decode) == Success(ScanState(11, "{b", 1, [Marker(5, "a", Start)]))
  {
    ScanExample12();
    assert Transcript[17] == 'b';
    assert CharAtOr(Cleaned, 12, ' ') == ' ';
    assert "{" + ['b'] == "{b";
    ScanStepInside(ScanState(11, "{", 1, [Marker(5, "a", Start)]), 'b', 17, Cleaned, Decode);
    ScanPrefixNext(Transcript, 17, Cleaned, Decode);
  }

  lemma ScanExample14()
    ensures ScanPrefix(Transcript[..19], Cleaned, Decode) == Success(ScanState(11, "", 0, [Marker(5, "a", Start), Marker(11, "a", Timeline.ImgEnd)]))
  {
    ScanExample13();
    assert Transcript[18] == '}';
    assert CharAtOr(Cleaned, 12, ' ') == ' ';
    assert "{b" + ['}'] == "{b}";
    assert [Marker(5, "a", Start)] + [Marker(11, "a", Timeline.ImgEnd)] == [Marker(5, "a", Start), Marker(11, "a", Timeline.ImgEnd)];
    assert Decode("{b}") == Some(Decoded("a", Timeline.ImgEnd));
    assert ScanStep(ScanState(11, "{b", 1, [Marker(5, "a", Start)]), '}', 18, Cleaned, Decode) == Success(ScanState(11, "", 0, [Marker(5, "a", Start), Marker(11, "a", Timeline.ImgEnd)]));
    ScanPrefixNext(Transcript, 18, Cleaned, Decode);
  }

  /** The marker text and the doubled space after it are removed. */
  lemma CleanExample()
    ensures Clean(Transcript) == Success(Cleaned)
  {
    CleanExample8();
    assert Transcript[..19] == Transcript;
  }

  /** Two markers, at cleaned offsets 5 and 11. */
  lemma ScanExample()
    ensures Scan(Transcript, Cleaned, Decode) ==
      Success([Marker(5, "a", Start), Marker(11, "a", Timeline.ImgEnd)])
  {
    ScanExample14();
    assert Transcript[..19] == Transcript;
  }

  /** The whole build: the image starts at 0.0 s (the start of "Hello", the word whose span
      reaches the first marker) and ends at 0.6 s; the timeline lasts 3.0 s. */
  lemma BuildExample()
    ensures BuildTimeline(Transcript, 25, (640, 480), Decode, Align) ==
      Success(Timeline.Timeline(
        [Timeline.Event(0.0, "a", Start), Timeline.Event(0.6, "a", Timeline.ImgEnd)],
        25, 3.0, (640, 480)))
  {
    CleanExample();
    ScanExample();
    var m0, m1 := Marker(5, "a", Start), Marker(11, "a", Timeline.ImgEnd);
    var e0, e1 := Timeline.Event(0.0, "a", Start), Timeline.Event(0.6, "a", Timeline.ImgEnd);
    assert Words[1..] == [Words[1]];
    assert FirstMatch(Words, 5) == Some(0);
    assert FirstMatch(Words, 11) == Some(1);
    assert Resolve(m0, Words) == Some(e0);
    assert Resolve(m1, Words) == Some(e1);
    assert [m0, m1][..1] == [m0];
    assert [m0][..0] == [];
    assert Matched([m0], Words) == [e0];
    assert Matched([m0, m1], Words) == [e0, e1];
    assert Words[..1] == [Words[0]];
    assert LastEligible(Words) == Some(1);
    assert TimelineLength(Words) == Success(3.0);
  }
}
