/** What the browse grid and a GET show of a stored string, next to what the update guard lets be edited. */
module Display {
  import opened RowWrites
  import opened Utf8
  import opened Wrappers

  const PREVIEW_BYTES := 1024
  const ELLIPSIS: char := '\U{2026}'

  /** A display cell: at most MAX_CELL scalars, the ellipsis of a cut cell included. */
  function CapCell(s: string): string {
    if |s| > MAX_CELL then s[..MAX_CELL - 1] + [ELLIPSIS] else s
  }

  /** The longest front of a string that fits in `n` bytes. */
  function Fitting(s: string, n: nat): (r: string)
    ensures r <= s && |Encode(r)| <= n
    ensures |Encode(s)| <= n ==> r == s
  {
    if s == "" || |EncodeChar(s[0])| > n then ""
    else
      var rest := Fitting(s[1..], n - |EncodeChar(s[0])|);
      assert ([s[0]] + rest)[1..] == rest;
      [s[0]] + rest
  }

  /** Rust's `is_char_boundary` on the bytes of a string. */
  predicate IsBoundary(bytes: Bytes, i: nat)
    requires i <= |bytes|
  {
    i == 0 || i == |bytes| || !IsContinuation(bytes[i])
  }

  lemma EncodedCharShape(c: char)
    ensures !IsContinuation(EncodeChar(c)[0])
    ensures forall i | 0 < i < |EncodeChar(c)| :: IsContinuation(EncodeChar(c)[i])
  {
  }

  /** Boundaries of a string's bytes are its first byte, and those of the rest shifted. */
  lemma BoundaryShift(s: string, i: nat)
    requires s != "" && i <= |Encode(s)|
    ensures
      var first := |EncodeChar(s[0])|;
      IsBoundary(Encode(s), i) <==> i == 0 || (first <= i && IsBoundary(Encode(s[1..]), i - first))
  {
    hide EncodeChar;
    var first, rest := EncodeChar(s[0]), Encode(s[1..]);
    EncodedCharShape(s[0]);
    if |s| > 1 {
      EncodedCharShape(s[1]);
      assert rest[0] == EncodeChar(s[1])[0];
    }
    if i < |first| {
      assert Encode(s)[i] == first[i];
    } else if i < |Encode(s)| {
      assert Encode(s)[i] == rest[i - |first|];
    }
  }

  lemma FittingFirst(s: string, n: nat)
    requires s != ""
    ensures
      var first := |EncodeChar(s[0])|;
      && |Encode(s)| == first + |Encode(s[1..])|
      && |Encode(Fitting(s, n))| == if first <= n then first + |Encode(Fitting(s[1..], n - first))| else 0
  {
    hide EncodeChar;
    if |EncodeChar(s[0])| <= n {
      var fit := Fitting(s[1..], n - |EncodeChar(s[0])|);
      assert ([s[0]] + fit)[1..] == fit;
    }
  }

  /** The last boundary at or before `n` is where the longest fitting front ends. */
  lemma {:induction false} FittingEndsAtBoundary(s: string, n: nat, i: nat)
    requires |Encode(Fitting(s, n))| <= i <= |Encode(s)| && i <= n
    ensures IsBoundary(Encode(s), i) <==> i == |Encode(Fitting(s, n))|
  {
    if s == "" {
      EmptyBoundary(i);
    } else {
      hide EncodeChar, Encode, Fitting, IsBoundary;
      var first := |EncodeChar(s[0])|;
      BoundaryShift(s, i);
      FittingFirst(s, n);
      if first <= n {
        FittingEndsAtBoundary(s[1..], n - first, i - first);
      }
    }
  }

  lemma EmptyBoundary(i: nat)
    requires i <= |Encode("")|
    ensures IsBoundary(Encode(""), i)
  {
  }

  lemma {:induction false} EncodeFront(s: string, front: string)
    requires front <= s
    ensures |Encode(front)| <= |Encode(s)| && Encode(s)[..|Encode(front)|] == Encode(front)
  {
    EncodeConcat(front, s[|front|..]);
    assert s == front + s[|front|..];
  }

  /** The string preview: the fetched bytes decoded lossily and cut back to a character boundary. */
  method PreviewString(got: Bytes) returns (preview: string)
    ensures preview == Fitting(Lossy(got), PREVIEW_BYTES)
  {
    var s := Lossy(got);
    var bytes := Encode(s);
    ghost var fit := Fitting(s, PREVIEW_BYTES);
    EncodeFront(s, fit);
    var end := if PREVIEW_BYTES < |bytes| then PREVIEW_BYTES else |bytes|;
    while !IsBoundary(bytes, end)
      invariant |Encode(fit)| <= end <= |bytes| && end <= PREVIEW_BYTES
      decreases end
    {
      FittingEndsAtBoundary(s, PREVIEW_BYTES, end);
      end := end - 1;
    }
    FittingEndsAtBoundary(s, PREVIEW_BYTES, end);
    DecodeIffEncode(bytes[..end], fit);
    preview := Decode(bytes[..end]).value;
  }

  /** GETRANGE key 0 1023. */
  function Fetched(stored: Bytes): Bytes {
    if |stored| > PREVIEW_BYTES then stored[..PREVIEW_BYTES] else stored
  }

  function Preview(stored: Bytes): string {
    Fitting(Lossy(Fetched(stored)), PREVIEW_BYTES)
  }

  function BrowseCell(stored: Bytes): string {
    CapCell(Preview(stored))
  }

  /** The value cell of an executed GET. */
  function GetCell(stored: Bytes): string {
    CapCell(Lossy(stored))
  }

  lemma LossyOfValid(s: string)
    ensures Lossy(Encode(s)) == s
  {
    LossyOfEncoded(s, []);
    assert Encode(s) + [] == Encode(s) && s + "" == s;
  }

  /** A cut cell is never the whole text. */
  lemma CapCellExact(s: string)
    ensures CapCell(s) == s <==> |s| <= MAX_CELL
  {
    assert |s| > MAX_CELL ==> |CapCell(s)| == MAX_CELL;
  }

  /** What a cell shows: the text itself, or of a longer one the first 299 characters and an ellipsis. */
  lemma CapCellShows(s: string)
    ensures |s| <= 300 ==> CapCell(s) == s
    ensures |s| > 300 ==>
              && |CapCell(s)| == 300 && CapCell(s)[299] == '\U{2026}'
              && forall i | 0 <= i < 299 :: CapCell(s)[i] == s[i]
  {
  }

  /** The preview is the longest front within the bytes: one more character would not fit. */
  lemma {:induction false} FittingIsLongest(s: string, n: nat)
    ensures var fit := Fitting(s, n); |fit| < |s| ==> |Encode(s[..|fit| + 1])| > n
  {
    var fit := Fitting(s, n);
    if |fit| < |s| {
      var longer := s[..|fit| + 1];
      assert longer[0] == s[0] && longer[1..] == s[1..][..|longer| - 1];
      if |EncodeChar(s[0])| <= n {
        FittingIsLongest(s[1..], n - |EncodeChar(s[0])|);
        assert |Fitting(s[1..], n - |EncodeChar(s[0])|)| == |fit| - 1;
      }
    }
  }

  /** A GET shows the stored bytes exactly when the update guard would let them be edited. */
  lemma GetShowsEditable(stored: Bytes)
    ensures Encode(GetCell(stored)) == stored <==> EditableText(stored).Some?
  {
    if Encode(GetCell(stored)) == stored {
      var s := GetCell(stored);
      DecodeIffEncode(stored, s);
      LossyOfValid(s);
      CapCellExact(s);
    }
    if EditableText(stored).Some? {
      var s := EditableText(stored).value;
      DecodeIffEncode(stored, s);
      LossyOfValid(s);
      CapCellExact(s);
    }
  }

  /** More than a preview's worth of bytes is never shown in full, whatever it is cut to. */
  lemma LongValueNotShown(stored: Bytes)
    requires |stored| > PREVIEW_BYTES
    ensures Encode(BrowseCell(stored)) != stored
  {
    var s := Lossy(Fetched(stored));
    var preview := Fitting(s, PREVIEW_BYTES);
    if Encode(BrowseCell(stored)) == stored {
      var shown := BrowseCell(stored);
      LossyPrefixIsShort(shown, PREVIEW_BYTES);
    }
  }

  /**
   The browse cell is the stored value, to the byte, exactly when the guard would
   let it be edited and it fits in the preview's 1024 bytes.
   */
  lemma BrowseShowsEditable(stored: Bytes)
    ensures Encode(BrowseCell(stored)) == stored <==> |stored| <= 1024 && EditableText(stored).Some?
  {
    if |stored| > PREVIEW_BYTES {
      LongValueNotShown(stored);
    } else {
      if Encode(BrowseCell(stored)) == stored {
        var s := BrowseCell(stored);
        DecodeIffEncode(stored, s);
        LossyOfValid(s);
        CapCellExact(s);
      }
      if EditableText(stored).Some? {
        var s := EditableText(stored).value;
        DecodeIffEncode(stored, s);
        LossyOfValid(s);
      }
    }
  }

  function Repeat(c: char, n: nat): (s: string)
    ensures |s| == n
  {
    if n == 0 then "" else [c] + Repeat(c, n - 1)
  }

  lemma {:induction false} RepeatLength(c: char, n: nat)
    ensures |Encode(Repeat(c, n))| == |EncodeChar(c)| * n
  {
    if n > 0 {
      RepeatLength(c, n - 1);
      assert Repeat(c, n)[1..] == Repeat(c, n - 1);
    }
  }

  /** A value that may be edited although the browse cell does not show it in full: 300 four-byte scalars. */
  lemma EditableNotShownExample()
    ensures
      var stored := Encode(Repeat('\U{1F600}', MAX_CELL));
      EditableText(stored).Some? && Encode(BrowseCell(stored)) != stored
  {
    var s := Repeat('\U{1F600}', MAX_CELL);
    RepeatLength('\U{1F600}', MAX_CELL);
    DecodeIffEncode(Encode(s), s);
    BrowseShowsEditable(Encode(s));
  }
}
