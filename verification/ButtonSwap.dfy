/** The A/B swap on a 32-bit button word. */
module ButtonSwap {

  const BUTTON_A: bv32 := 0x1000
  const BUTTON_B: bv32 := 0x2000

  function AsB(buttons: bv32): bv32 { if buttons & BUTTON_A != 0 then BUTTON_B else 0 }

  function AsA(buttons: bv32): bv32 { if buttons & BUTTON_B != 0 then BUTTON_A else 0 }

  function SwapAB(buttons: bv32): bv32 {
    (buttons & !(BUTTON_A | BUTTON_B)) | AsB(buttons) | AsA(buttons)
  }

  lemma {:induction false} SwapPutsBUnderA(buttons: bv32)
    ensures SwapAB(buttons) & 0x1000 != 0 <==> buttons & 0x2000 != 0
  {
  }

  lemma {:induction false} SwapPutsAUnderB(buttons: bv32)
    ensures SwapAB(buttons) & 0x2000 != 0 <==> buttons & 0x1000 != 0
  {
  }

  lemma {:induction false} OnlyB(buttons: bv32)
    ensures AsB(buttons) & !0x3000 == 0
  {
  }

  lemma {:induction false} OnlyA(buttons: bv32)
    ensures AsA(buttons) & !0x3000 == 0
  {
  }

  lemma {:induction false} RestIsKept(x: bv32, b: bv32, a: bv32)
    requires b & !0x3000 == 0 && a & !0x3000 == 0
    ensures ((x & !0x3000) | b | a) & !0x3000 == x & !0x3000
  {
  }

  lemma {:induction false} SwapKeepsTheRest(buttons: bv32)
    ensures SwapAB(buttons) & !0x3000 == buttons & !0x3000
  {
    OnlyB(buttons);
    OnlyA(buttons);
    RestIsKept(buttons, AsB(buttons), AsA(buttons));
  }

  /** A (0x1000) is held in one word exactly when B (0x2000) is in the other, and every other
      bit is the same in both. */
  predicate Exchanged(x: bv32, y: bv32) {
    && (x & 0x1000 != 0 <==> y & 0x2000 != 0)
    && (x & 0x2000 != 0 <==> y & 0x1000 != 0)
    && x & !0x3000 == y & !0x3000
  }

  /** The swap exchanges the two buttons. */
  lemma {:induction false} SwapExchanges(buttons: bv32)
    ensures Exchanged(SwapAB(buttons), buttons)
  {
    SwapPutsBUnderA(buttons);
    SwapPutsAUnderB(buttons);
    SwapKeepsTheRest(buttons);
  }

  lemma {:induction false} SplitWord(x: bv32, y: bv32)
    requires x & !0x3000 == y & !0x3000
    requires x & 0x1000 != 0 <==> y & 0x1000 != 0
    requires x & 0x2000 != 0 <==> y & 0x2000 != 0
    ensures x == y
  {
  }

  lemma {:induction false} SwapTwice(buttons: bv32)
    ensures SwapAB(SwapAB(buttons)) == buttons
  {
    var once := SwapAB(buttons);
    SwapPutsBUnderA(buttons);
    SwapPutsAUnderB(buttons);
    SwapKeepsTheRest(buttons);
    SwapPutsBUnderA(once);
    SwapPutsAUnderB(once);
    SwapKeepsTheRest(once);
    SplitWord(SwapAB(once), buttons);
  }
}
