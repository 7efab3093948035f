/** A guard that keeps a definition folded: a fact under
    "forall b {:trigger Key(b)} :: Key(b) ==> ..." is not followed by the
    verifier until a proof asserts Key(true). It is used in the same way for the
    reading of a command line and what a scanner will find
    (GetoptScanner.Reading, WillFind), a fill of the TFTP buffer and the loop of
    a read (TftpTracks.Filled, TftpReader.ReadLoop), the contents of the page
    ring (Ns8390.Lies) and what a device map text yields (DeviceMap.Yields): each
    has a predicate that states its value under the guard, and a lemma that
    unfolds it. */
module Folding {
  predicate Key(b: bool) { b }
}
