/** The allocator and the deallocator of the caller. */
module FrameAlloc {
  import opened Wrappers
  import opened PageTable

  /** `FrameAllocator`, known by what it will answer. */
  class FrameAllocator {
    var answers: Answers

    constructor (answers: Answers)
      ensures this.answers == answers
    {
      this.answers := answers;
    }

    method AllocateFrame() returns (r: Option<Frame>)
      modifies this
      ensures r == Answer(old(answers)) && answers == Later(old(answers))
    {
      r := Answer(answers);
      answers := Later(answers);
    }
  }

  /** `FrameDeallocator`, known by what it was given. */
  class FrameDeallocator {
    var freed: seq<Frame>

    constructor ()
      ensures freed == []
    {
      freed := [];
    }

    method DeallocateFrame(f: Frame)
      modifies this
      ensures freed == old(freed) + [f]
    {
      freed := freed + [f];
    }
  }
}
