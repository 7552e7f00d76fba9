/**
 * The choice keyboard built by `handle_link`: one button per kept format, whose callback
 * payload is the height as a decimal string, then the "Audio Only" button with payload "audio".
 * Button labels (the size in MB) are not modelled; only the payloads reach the download step.
 */
module Choices {
  import opened Decimal
  import opened Formats
  import opened Download

  /** The callback payloads of the keyboard, top to bottom. */
  function ChoicePayloads(entries: seq<Entry>): seq<string> {
    seq(|entries|, m requires 0 <= m < |entries| => IntToString(entries[m].height)) + [AudioPayload]
  }

  /** A height payload never equals `AudioPayload`: it starts with a digit or a minus sign. */
  lemma HeightPayloadIsNotAudio(h: int)
    ensures IntToString(h) != AudioPayload
  {
    var s := IntToString(h);
    assert s[0] == '-' || IsDigit(s[0]);
  }

  /**
   * The payloads are the heights in the kept order, then exactly one `AudioPayload`, last.
   * Each height payload reads back as its height; distinct heights give distinct payloads.
   */
  lemma ChoicePayloadsShape(entries: seq<Entry>)
    ensures var p := ChoicePayloads(entries);
      && |p| == |entries| + 1
      && p[|entries|] == AudioPayload
      && (forall m :: 0 <= m < |entries| ==> p[m] == IntToString(entries[m].height))
      && (forall m :: 0 <= m < |p| && p[m] == AudioPayload ==> m == |entries|)
    ensures var p := ChoicePayloads(entries);
      forall m :: 0 <= m < |entries| ==> DecimalValue(p[m]) == entries[m].height
    ensures DistinctHeights(entries) ==>
      var p := ChoicePayloads(entries);
      forall m, n :: 0 <= m < n < |p| ==> p[m] != p[n]
  {
    var p := ChoicePayloads(entries);
    forall m | 0 <= m < |entries| ensures p[m] != AudioPayload {
      HeightPayloadIsNotAudio(entries[m].height);
    }
    forall m | 0 <= m < |entries| ensures DecimalValue(p[m]) == entries[m].height {
      IntToStringRoundTrip(entries[m].height);
    }
    if DistinctHeights(entries) {
      forall m, n | 0 <= m < n < |p| ensures p[m] != p[n] {
        if n < |entries| && p[m] == p[n] {
          IntToStringInjective(entries[m].height, entries[n].height);
        }
      }
    }
  }

  /** No kept formats: the keyboard is the single "Audio Only" button. */
  lemma NoEntriesOnlyAudio()
    ensures ChoicePayloads([]) == [AudioPayload]
  {
  }

  /** The keyboard-building loop of `handle_link`. */
  method BuildChoices(entries: seq<Entry>) returns (payloads: seq<string>)
    ensures payloads == ChoicePayloads(entries)
    ensures |payloads| == |entries| + 1 && payloads[|entries|] == AudioPayload
    ensures forall m :: 0 <= m < |entries| ==> payloads[m] == IntToString(entries[m].height)
  {
    payloads := [];
    for i := 0 to |entries|
      invariant |payloads| == i
      invariant forall m :: 0 <= m < i ==> payloads[m] == IntToString(entries[m].height)
    {
      payloads := payloads + [IntToString(entries[i].height)];
    }
    payloads := payloads + [AudioPayload];
  }
}
