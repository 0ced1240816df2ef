# The camera-annex controller, modelled

The program watches the temperature controllers ("coolers") and ion-pump pressure gauges
("vacuums") of a group of telescope cameras. It polls them over serial lines, keeps the last
readings in records, and passes the readings on as text messages over TCP. Beside that it
carries a library of numerical routines. This project models both halves and proves what they
promise.

- **Numerical routines**, over exact reals, in the in-place form of the source. `MatInvert.dfy`
  is the six-stage in-place inverse: it returns the two-sided inverse exactly
  when the pivots of textbook elimination pass its test.
  `LeastSquares.dfy` builds and solves the normal equations of the Gaussian fit, whose
  coefficients are global minimisers. `CubicSpline.dfy`, `SplineGrid.dfy` and `Lagrange.dfy` are
  the interpolators: the systems they solve, uniqueness, and the functions they reproduce
  exactly. `KSelect.dfy` is quickselect, `GaussKernel.dfy` the Gaussian convolution.
- **The serial side.** `CoolerCodec.dfy` is the printer and parser of the frames, in the style of
  Modbus ASCII (section 2.5.2 of "MODBUS over Serial Line Specification and Implementation Guide
  V1.02"). `SerialComm.dfy` is the bounded receive buffer, `Controllers.dfy` the controller
  class, `FrameReception.dfy` the independence of how a frame is cut into chunks.
- **The command queue.** `ControllerRuns.dfy` turns the cycle thread, the respond thread, the
  serial callback and the public calls into one step system. The class methods of `Controllers.dfy`
  are proved equal to its steps, and an invariant of every run gives ordering, attribution of
  replies and completeness of reports.
- **The network side.** `TcpClient.dfy` is the buffered send pipeline, `AsciiProtocol.dfy` and
  `AsciiRoundTrip.dfy` the text protocol with its round trip.

Code that changes arrays or objects step by step is a method over arrays or a class; its contract
gives the result outright or equates the new state with a function of the old one, and the lemmas
are about those functions. `MatrixAlgebra.dfy`, `Numeric.dfy`, `Bytes.dfy` and `AsciiText.dfy` hold
what the others share.

## Where the code and its own documentation differ

The model follows the code.

- `MatInvert` is documented to return -1 for a singular matrix. It also returns -1 for a regular
  matrix, exactly when a pivot of the elimination is below 1e-15 times an earlier one
  (`PivotsPass`). A matrix whose first column is all zero is not refused: the code divides
  by the zero pivot and returns 0 with non-finite entries (`NotFinite`).
- `GaussFit2D` with no sample above 1e-10 runs into that case and reports success (`NoSamples`).
- `CubicSpline` with two knots divides zero by zero.
- The checksum of a cooler frame covers the colon and the CR LF too, which section 2.5.2.2 of the
  Modbus guide leaves out. On reception no checksum is looked at.
- A data byte above 127 does not survive the cooler frame: `value[j] / 16` works on a signed
  char. The round trip holds exactly for seven-bit data.
- Text messages come back whole exactly when their strings hold no comma, equals sign or outer
  blank and, because the text is right-trimmed after the pressure has been written last, the
  pressure of a vacuum does not end in punctuation.
- The vacuum receiver never consumes a carriage return at the head of its buffer. One there blocks
  every reply until so much has arrived that the full buffer drops it as its oldest byte.
- `Write` outside a round leaves a nonempty list with nothing in flight. The cycle thread then
  never starts another round, and nothing is sent any more.
- `Write` of an integer whose text has more than ten characters, such as -1000000000, to a cooler
  would write past the 30-byte buffer of the directive.
- The two widths of the Gaussian kernel are documented as the standard deviations of the two axes.
  The code divides the squared distance by twice their product, which is the same only when they
  are equal; the kernel is rotationally symmetric either way.
- After a failed TCP write the buffer stays nonempty and no further write is ever started.
- `Convolve` is documented to return 1E300 outside the image; it returns 0.

## Model

| member | source | states |
|---|---|---|
| MatrixInverse.MatInvert | src/AMath.cpp:158-261 | For every N and every matrix: the zero-pivot run happens exactly for a zero first column; otherwise 0 is returned if and only if no pivot of textbook elimination with partial pivoting, the first of equal largest entries taken, is below 1e-15 times an earlier one, and the array then holds the two-sided inverse of the input; all other singular matrices get -1 |
| MatrixInverse.RegularYetRefused | src/AMath.cpp:190-195 | diag(1, e) with 0 < e < 1 is regular, yet its pivots pass if and only if e is at least 1e-15, so the documented meaning of -1 fails below |
| MatrixInverse.Eliminate | src/AMath.cpp:169-208 | The outcome is the textbook elimination's, both ways; on success `le` holds exactly its pivot rows, the pivots have its sizes, and the array is a packed P A = L U with every entry of L at most 1 in size and nonzero reciprocal pivots on the diagonal |
| MatrixInverse.ColumnIsTextbook | src/AMath.cpp:170-178 | The column the left-looking loop reduces in place equals that column of the right-looking textbook elimination, entry by entry |
| MatrixInverse.ScaleClears | src/AMath.cpp:206-207 | Scaling the column in the array corresponds to clearing it in the textbook elimination |
| MatrixInverse.PivotRowRange | src/AMath.cpp:180-188 | The row exchanged is the first of those with a largest entry: all before it are strictly smaller, none after it is larger |
| MatrixInverse.FirstLargestUnique | src/AMath.cpp:180-188 | Which row is exchanged is determined by the column, ties included |
| MatrixInverse.SameElimination | src/AMath.cpp:169-208 | The outcome depends on the N by N entries only |
| MatrixInverse.ReduceColumn | src/AMath.cpp:170-178 | Each entry of the column is its new value plus what the columns before it account for; nothing else changes |
| MatrixInverse.ChoosePivot | src/AMath.cpp:180-204 | The pivot is the first of the largest remaining entries, the textbook's pivot; the exchange keeps the factorisation and the correspondence; a refusal means that the pivots of the input do not pass |
| MatrixInverse.FinishColumn | src/AMath.cpp:206-207 | Scaling by the reciprocal pivot extends the factorisation by one column; the pivot is zero only for a zero first column |
| MatrixInverse.ZeroPivotOnlyFirst | src/AMath.cpp:190-191 | A zero pivot can pass the acceptance test in column 0 only |
| MatrixInverse.PackedIsProduct | src/AMath.cpp:169-208 | The packed entries are those of a unit lower L and an upper U whose product is the permuted matrix |
| MatrixInverse.InvertUpper | src/AMath.cpp:210-223 | The upper triangle becomes the inverse of U in place and the part below the diagonal is untouched |
| MatrixInverse.UpperEntriesInvert | src/AMath.cpp:214-223 | The recurrence the entries satisfy makes them the inverse of U |
| MatrixInverse.InvertLower | src/AMath.cpp:225-236 | The strictly lower triangle becomes the inverse of L in place and the rest is untouched |
| MatrixInverse.LowerEntriesInvert | src/AMath.cpp:225-236 | The recurrence the entries satisfy makes them the inverse of L |
| MatrixInverse.MultiplyFactors | src/AMath.cpp:238-248 | The in-place product of the two packed inverses, although it overwrites its own operands column by column |
| MatrixInverse.UndoPermutation | src/AMath.cpp:250-256 | The column exchanges turn the inverse of the permuted matrix into the inverse of the input |
| MatrixInverse.InvertedFactors | src/AMath.cpp:238-248 | The product of the inverted factors is the inverse of the product, on both sides |
| MatrixInverse.InverseMeansRegular | src/AMath.cpp:158-261 | A matrix with an inverse is not singular, so a singular one is never reported inverted |
| MatrixAlgebra.TriangularTwoSided | src/AMath.cpp:210-236 | A left inverse of a triangular matrix that is triangular itself is a right inverse as well |
| MatrixAlgebra.InverseExchange | src/AMath.cpp:250-256 | Exchanging rows of a matrix exchanges the same columns of its inverse |
| LeastSquares.MatRealMult | src/AMath.cpp:127-144 | Every entry is the scalar product of a row and a column |
| LeastSquares.LSLinearSolve | src/AMath.cpp:264-269 | Succeeds if and only if the first column is not zero and the pivots pass, and then X solves A X = Y for the matrix given; singular matrices are refused |
| LeastSquares.BuildNormalEquations | src/AMath.cpp:274-319 | The accumulated B and Q are the Gram matrix of the design matrix and its product with the targets, dropped samples counting nothing |
| LeastSquares.NormalEquationsMinimise | src/AMath.cpp:321-321 | A solution of the normal equations has the least sum of squares of all coefficients |
| LeastSquares.LossIsSumOfSquares | src/AMath.cpp:281-319 | The weighted loss over the kept samples is the sum of squared misfits of the design matrix |
| LeastSquares.LossOfOneMore | src/AMath.cpp:281-295 | A sample above 1e-10 adds z^2 (ln z - (c0 + c1 x + c2 y + c3 x^2 + c4 y^2))^2 to the loss, any other nothing |
| LeastSquares.FirstColumnOfGram | src/AMath.cpp:285-299 | The first column of B vanishes exactly when no sample is kept |
| LeastSquares.PeakOfSurface | src/AMath.cpp:322-325 | With both quadratic coefficients negative the fitted surface is highest at (x0, y0) |
| LeastSquares.GaussFit2D | src/AMath.cpp:272-329 | The coefficients minimise the loss over all coefficients; a reported peak is the top of the fitted surface; no samples kept, and a Gram matrix whose pivots do not pass, are each exactly one outcome |
| CubicSplines.EliminateRows | src/AMath.cpp:477-495 | Builds and eliminates the tridiagonal rows; every pivot is nonzero exactly when there are three knots or more |
| CubicSplines.EliminationSolves | src/AMath.cpp:491-500 | Eliminated rows plus back substitution satisfy all N rows of the system |
| CubicSplines.SolutionUnique | src/AMath.cpp:477-500 | The system has one solution only |
| CubicSplines.PieceTaylor | src/AMath.cpp:515-516 | The evaluated piece is the cubic with the stated slope, curvature and third derivative at every point |
| CubicSplines.PassesThroughKnots | src/AMath.cpp:513-516 | Both segments at a knot give the knot's value |
| CubicSplines.SmoothAtKnot | src/AMath.cpp:482-490 | Curvatures agree at an interior knot, and slopes agree there if and only if the knot's row of the system holds |
| CubicSplines.SmoothIffRows | src/AMath.cpp:482-516 | A curve has agreeing slopes and curvatures at every interior knot if and only if its second derivatives satisfy the interior rows |
| CubicSplines.ServingSegmentsAgree | src/AMath.cpp:506-512 | Where two segments may be chosen they give the same value |
| CubicSplines.OnSplineMeans | src/AMath.cpp:503-517 | The value is that of the piece over the segment holding the position; beyond the knots the end piece goes on |
| CubicSplines.ConstantSolves | src/AMath.cpp:477-490 | The constant second derivative of a quadratic solves the system, end rows included |
| CubicSplines.PieceOfQuadratic | src/AMath.cpp:513-516 | A piece with a quadratic's ends and curvature is that quadratic everywhere |
| CubicSplines.QuadraticReproduced | src/AMath.cpp:477-516 | The computed spline of a quadratic's samples is the quadratic, outside the knots too |
| CubicSplines.FindSegment | src/AMath.cpp:506-512 | The segment found contains the position, or is the end segment for positions beyond the knots |
| CubicSplines.Evaluate | src/AMath.cpp:503-517 | Every output is the value of the spline at its position |
| CubicSplines.CubicSpline | src/AMath.cpp:465-523 | With three knots or more the outputs lie on one curve with continuous slope and curvature whose second derivatives solve the whole system, pass through the knots, and reproduce every quadratic; with two the run is not finite |
| LagrangeInterpolation.WindowFits | src/AMath.cpp:546-561 | The window holds any node at the position and, within the data, nodes on both sides of it; on a side where it does not touch the end of the data, OD / 2 of its nodes are at or before the position, the others beyond |
| LagrangeInterpolation.WindowUnique | src/AMath.cpp:551-561 | There is one window of OD nodes centred at a position |
| LagrangeInterpolation.InterpolateAt | src/AMath.cpp:546-570 | The loops compute the interpolant of the window centred at the position, described by the positions of its nodes |
| LagrangeInterpolation.Neville | src/AMath.cpp:563-569 | Neville's recurrence between the interpolants of a window and of its two shorter windows |
| LagrangeInterpolation.PartitionOfUnity | src/AMath.cpp:563-569 | The basis factors of a window add up to one at every position |
| LagrangeInterpolation.SyntheticDivision | src/AMath.cpp:563-569 | Division of a polynomial by a linear factor, the step of the reproduction proof |
| LagrangeInterpolation.WindowReproduces | src/AMath.cpp:563-569 | A window of n nodes reproduces every polynomial of degree below n at every position |
| LagrangeInterpolation.ReproducesPolynomials | src/AMath.cpp:535-572 | The result for samples of a polynomial of degree below the clamped order is the polynomial's value |
| LagrangeInterpolation.ReturnsNodeValues | src/AMath.cpp:535-572 | At a node the result is the node's value |
| LagrangeInterpolation.Lagrange | src/AMath.cpp:535-572 | Every output is the interpolant of the window centred at its position; polynomials with at most max(2, OD) coefficients are reproduced, and nodes give their value |
| Selection.KSelect | src/AMath.h:360-420 | Terminates, permutes the array, and returns the value at k of every sorted arrangement, with the array separated around k; an index out of range gives -1 and changes nothing |
| Selection.MedianOfThree | src/AMath.h:382-400 | Leaves the three ends ordered and rearranges only the active segment |
| Selection.Scan | src/AMath.h:405-406 | Both unguarded scans stop in bounds because of the ends, and say what they passed over |
| Selection.Partition | src/AMath.h:401-413 | Splits the segment around the pivot's final place, duplicates included |
| Selection.SelectedUnique | src/AMath.h:419-419 | Any two arrangements of the same values separated at k have the same value there |
| Selection.SelectedIsKthSmallest | src/AMath.h:352-359 | A separated value is the one sorting puts at k |
| SplineGrids.NaturalSpline | src/AMath.cpp:366-399 | The coefficients satisfy every row of the natural system, and the piecewise cubic with these second derivatives has continuous slope and curvature and no curvature at its ends |
| SplineGrids.NaturalIsCurve | src/AMath.cpp:366-399 | Coefficients solve the system if and only if their curve is smooth and free of curvature at both ends |
| SplineGrids.RowIffKnotRow | src/AMath.cpp:380-385 | A row of the system holds if and only if the slopes of the two pieces agree at its node |
| SplineGrids.EliminateRow | src/AMath.cpp:380-385 | One elimination step changes entry i of c and u only, as the recurrence says |
| SplineGrids.NaturalUnique | src/AMath.cpp:366-399 | A table has one natural spline |
| SplineGrids.Splint | src/AMath.cpp:401-420 | Refuses exactly when the nodes around the position are closer than 1e-6; otherwise the value lies on the piecewise cubic with second derivatives c, whose Taylor expansion is CubicSplines.PieceTaylor, and at a node it is the node's |
| SplineGrids.WeightsGivePiece | src/AMath.cpp:413-417 | The formula in the weights of the two nodes is the cubic piece between them |
| SplineGrids.ResolvedMeans | src/AMath.cpp:407-413 | Which gap the refusal looks at, for every position |
| SplineGrids.BracketServes | src/AMath.cpp:406-411 | Bisection ends at the segment holding the position, or the end segment |
| SplineGrids.LineHasZeroCoefficients | src/AMath.cpp:366-399 | The zero coefficients solve the natural system of a line |
| SplineGrids.Spline2 | src/AMath.cpp:422-436 | Each stored row is the natural solution of its row of the table, and its curve is smooth and free of curvature at both ends |
| SplineGrids.Splint2 | src/AMath.cpp:438-463 | Succeeds exactly when both brackets are wide enough; the result then lies on the natural curve, along the first variable, through the values of the rows' curves |
| SplineGrids.GridPointValue | src/AMath.cpp:438-463 | At grid point (r, s) the result is y[r nc + s], for every grid of two rows and columns or more |
| SplineGrids.BilinearReproduced | src/AMath.cpp:422-463 | Bilinear data are reproduced at every position, beyond the grid too |
| GaussianConvolution.GaussConvolve.constructor | src/AMath.h:471-478 | The kernel has total 1, odd sizes taken from each width, and each entry is to the central one as exp(-d / (2 sigmax sigmay)) to exp(0), d the squared distance |
| GaussianConvolution.ExponentsAgreeIff | src/AMath.h:533-548 | The exponent is that of a Gaussian with the documented standard deviations at an offset if and only if they are equal or dx^2 sigmay = dy^2 sigmax |
| GaussianConvolution.WidthsAreDeviationsIff | src/AMath.h:464-464 | It is so over the whole window if and only if the two are equal or the window is one point |
| GaussianConvolution.UnequalWidths | src/AMath.h:464-464 | For 1 and 2, at the neighbour along x, the exponent is -1/4 where the documentation gives -1/2 |
| GaussianConvolution.GaussConvolve.NewKernel | src/AMath.h:484-498 | Keeps everything when both widths differ by less than 1e-6, and rebuilds the kernel otherwise |
| GaussianConvolution.GaussConvolve.MakeKernel | src/AMath.h:533-555 | The two passes leave that kernel: positive, symmetric through the centre, total 1, in the ratios of the Gaussian |
| GaussianConvolution.KernelFalls | src/AMath.h:533-555 | For an increasing exp the entries do not grow with the distance from the centre |
| GaussianConvolution.NormalisedIsKernel | src/AMath.h:533-555 | Positivity, central symmetry and total 1, for any positive exp |
| GaussianConvolution.OddTotalIsZero | src/AMath.h:522-526 | A window that changes sign through its centre sums to zero |
| GaussianConvolution.AffineImageKept | src/AMath.h:510-530 | On an affine image a kernel returns the value at its centre |
| GaussianConvolution.OnePixelImage | src/AMath.h:510-530 | One pixel gives back the kernel entry at its offset, and nothing outside the window |
| GaussianConvolution.GaussConvolve.Convolve | src/AMath.h:510-530 | 0 where the window leaves the image; else the weighted sum, which on a plane is the centre value and on an image of one pixel that pixel times the kernel entry at its offset |
| Bytes.HexDecodes | src/ControllerBase.cpp:124-134 | decode_uint8 undoes the two-digit coding of every byte |
| Bytes.AnyPairDecodes | src/ControllerBase.cpp:124-134 | What decode_uint8 makes of any two bytes: 16 times the first and the second modulo 256, a byte that is no digit counting with its own value |
| Bytes.NegativeData | src/CoolerCtl.cpp:63-66 | Which two characters a byte above 127 is written as |
| Bytes.DataHexDecodesIff | src/CoolerCtl.cpp:63-66 | A data byte survives coding and decoding exactly when it is below 128 |
| Bytes.DataHexClean | src/CoolerCtl.cpp:63-66 | No data byte, negative ones included, is written as colon, CR or LF |
| CoolerCodec.LRC | src/AMath.h:679-684 | The result and the plain sum of the bytes add up to 0 modulo 256 |
| CoolerCodec.SumIsModulo | src/AMath.h:681-682 | The eight-bit sum is the plain sum modulo 256 |
| CoolerCodec.EncodeData | src/CoolerCtl.cpp:51-78 | Writes exactly the frame of length 9 + 2n and a zero after it |
| CoolerCodec.FrameLayout | src/CoolerCtl.cpp:51-78 | Where each part of a frame stands, for every length of data |
| CoolerCodec.BodyClean | src/CoolerCtl.cpp:51-78 | Between colon and CR LF no byte is a colon, CR or LF |
| CoolerCodec.RoundTrip | src/CoolerCtl.cpp:80-95 | The decoding scans recover device, function and n data bytes, the bytes exactly when all are seven-bit |
| CoolerCodec.ChecksumCloses | src/CoolerCtl.cpp:73-75 | All bytes but the checksum digits, plus the checksum they spell, sum to 0 modulo 256 |
| SerialPort.SerialComm.HandleRead | src/SerialComm.cpp:104-112 | The buffer becomes the last 5120 bytes of everything received and not yet read |
| SerialPort.SerialComm.Lookup | src/SerialComm.cpp:53-62 | The first position at or after from where the mark stands, or -1 |
| SerialPort.SerialComm.Read | src/SerialComm.cpp:80-90 | Which bytes are copied, and that everything up to the last of them is dropped |
| Controllers.EncodeVacuum | src/VacuumCtl.cpp:47-71 | Writes exactly the eleven-byte message with its running sum |
| Controllers.VacuumLayout | src/VacuumCtl.cpp:47-71 | Where everything stands in the message: mark, blanks, device, function, CR, and a checksum that is the sum of bytes 1 to 7 modulo 256 |
| Controllers.MessageFunction | src/CoolerCtl.cpp:59-60 | The function a message asks for can be read off it, for both kinds |
| Controllers.MessageTarget | src/CoolerCtl.cpp:51-60 | The device a message addresses can be read off it, for both kinds |
| Controllers.GeneratedLength | src/ControllerBase.cpp:179-181 | A round has devices times monitored functions directives |
| Controllers.GeneratedAt | src/ControllerBase.cpp:181-181 | The round goes device by device and through the monitor list for each |
| Controllers.RoundOnWire | src/CoolerCtl.cpp:41-49 | Which device and which function every message of a round asks for, in order, for both kinds |
| Controllers.Controller.AddDevice | src/ControllerBase.cpp:70-74 | A device is listed once |
| Controllers.Controller.Write | src/ControllerBase.cpp:76-92 | Appends one encoded directive and sends nothing, exactly when the formatted value fits |
| Controllers.Controller.WriteInteger | src/ControllerBase.cpp:82-86 | A cooler directive takes an integer exactly when -1000000000 < v < 10000000000 |
| Controllers.FitsIff | src/ControllerBase.cpp:108-122 | A message and its terminating zero stay within the 30-byte buffer if and only if the value has at most ten characters or the device is a vacuum |
| Controllers.IntegerFitsIff | src/ControllerBase.cpp:112-116 | Which integers have at most ten characters: -1000000000 is the first that has not |
| Controllers.DecimalDenotes | src/ControllerBase.cpp:112-116 | The text of an integer denotes it and holds digits only, after a minus sign for negative ones |
| Controllers.Controller.GenerateDirective | src/CoolerCtl.cpp:41-49 | One directive for each monitored function of the device, in order |
| Controllers.Controller.CheckRecords | src/CoolerCtl.cpp:34-39 | One record per device, renumbered only when the count has changed |
| Controllers.CheckDataKeeps | src/CoolerCtl.cpp:34-39 | More devices: earlier records keep readings and marks; the same number: nothing changes |
| Controllers.Controller.ThreadCycle | src/ControllerBase.cpp:177-183 | One body of the cycle thread is the cycle step |
| Controllers.Controller.ThreadRespond | src/ControllerBase.cpp:199-206 | One body of the respond thread is the respond step, with a report exactly when the list has run empty |
| Controllers.ReportClearsMarks | src/ControllerBase.cpp:200-206 | The step that reports leaves no mark and keeps the readings; the others leave the records alone |
| Controllers.Controller.WriteLog | src/CoolerCtl.cpp:109-118 | Clears every mark and no reading |
| Controllers.Controller.FindDevice | src/CoolerCtl.cpp:159-163 | The first record of the device, or none |
| Controllers.Controller.DecodeData | src/CoolerCtl.cpp:80-107 | The return code and the updated record, for every received length |
| Controllers.RefusedLengths | src/CoolerCtl.cpp:81-82 | Which lengths are refused, with which code, for both kinds |
| Controllers.UpdatedExactly | src/CoolerCtl.cpp:97-104 | A reply changes one field of the first record of its device and marks it exactly when the value is a new one; unknown devices and functions change nothing |
| Controllers.MeaningIff | src/VacuumCtl.cpp:87-90 | The pressure of a vacuum is stored as text, everything else as the number the text denotes |
| Controllers.Controller.SerialRead | src/ControllerBase.cpp:148-163 | A callback takes the first complete frame, up to its last byte, out of the buffer and decodes it, or changes nothing; exactly when the source would overrun its array or take the front of an empty list |
| Controllers.CoolerFrameIsReply | src/CoolerCtl.cpp:80-107 | Decoding an encoded frame, with data or without, is the reply step for its device and function |
| Controllers.VacuumReplyIsReply | src/VacuumCtl.cpp:73-94 | Decoding a vacuum reply is the reply step for the function at the front of the list |
| Controllers.VacuumReplyText | src/VacuumCtl.cpp:76-84 | From a reply of device, four bytes, coded text and three bytes the text comes back, whatever the seven bytes |
| ControllerRuns.StepKeeps | src/ControllerBase.cpp:98-208 | Every step but a Write on an empty list keeps the invariant |
| ControllerRuns.RunInv | src/ControllerBase.cpp:98-208 | In every state of every run: the invariant until a Write on an empty list, the stalled state from then on |
| ControllerRuns.OneCommandAtATime | src/ControllerBase.cpp:139-208 | On every run no front or pop meets an empty list; and the list is nonempty exactly when one command is in flight or one answer waits, never both, with that command at the front, if and only if no Write has met an empty list |
| ControllerRuns.StalledKeeps | src/ControllerBase.cpp:177-183 | After a Write on an empty list every step leaves everything but the list and the devices as it is |
| ControllerRuns.StrayWriteIsFinal | src/ControllerBase.cpp:177-183 | From then on nothing is sent, answered or reported, whatever happens |
| ControllerRuns.SentOnceInOrder | src/ControllerBase.cpp:98-106 | On every run what was sent is the first part of what was queued, short of it by exactly what still waits; an empty list means all was sent and answered in order |
| ControllerRuns.CommandsOnWire | src/ControllerBase.cpp:139-146 | On every run every message queued or sent asks for the function its directive names |
| ControllerRuns.ReplyAttributed | src/VacuumCtl.cpp:73-94 | On every run a reply is stored under the device and function that the message in flight carries, although a vacuum reply names no function |
| ControllerRuns.ReportIsGood | src/ControllerBase.cpp:199-206 | When the list is about to run empty, all answers of the round are there and in the records |
| ControllerRuns.ReportsAreGood | src/ControllerBase.cpp:172-208 | On every run each report follows exactly devices times monitored functions replies, plus the written ones, to messages that ask for what they are stored under, and every monitored field of every device holds its last value from that round |
| FrameReception.HandleChunk | src/SerialComm.cpp:104-112 | The buffer, search, read and decode methods together do one abstract callback of either kind of device, unless the frame found overruns the receive array |
| FrameReception.ReceptionOf | src/ControllerBase.cpp:153-158 | Nothing is taken until the frame is complete, and then exactly the frame |
| FrameReception.IncompleteChangesNothing | src/ControllerBase.cpp:148-163 | Callbacks before the frame's last byte leave the records alone and consume nothing |
| FrameReception.ChunkIndependence | src/ControllerBase.cpp:148-163 | However junk, frame and suffix are cut, the frame is decoded once, at the callback with its last byte, and junk and frame are gone afterwards |
| FrameReception.VacuumTakesIff | src/ControllerBase.cpp:153-158 | The vacuum receiver takes a reply exactly when a CR has arrived and the first byte is not one |
| FrameReception.VacuumTakesFirst | src/ControllerBase.cpp:153-158 | What is taken is everything up to the first CR, with it |
| FrameReception.VacuumChunkIndependence | src/ControllerBase.cpp:148-163 | However a reply without CR, its CR and a suffix are cut, the reply with its CR is decoded once, at the callback that brings the CR, and the suffix stays in the buffer |
| FrameReception.BlockedUntilOverflow | src/ControllerBase.cpp:153-158 | With a CR at the head no vacuum callback takes anything while what arrives fits in the 5120 bytes; the first callback beyond that takes something exactly when what is left starts with another byte and holds a CR |
| TcpSend.TCPClient.Write | src/tcpasio.cpp:154-169 | Accepts as much as fits and starts a write exactly when the buffer was empty and something was accepted |
| TcpSend.RoomFills | src/tcpasio.cpp:160-162 | Everything is taken when it fits, otherwise the buffer is filled to its 15000 bytes |
| TcpSend.TCPClient.HandleWrite | src/tcpasio.cpp:189-196 | A completion drops what was sent and starts the next write; a failure does nothing |
| TcpSend.StepKeeps | src/tcpasio.cpp:154-213 | Every write, completion and failure keeps the invariant |
| TcpSend.BytesConserved | src/tcpasio.cpp:154-213 | On every interleaving, sent ++ pending = accepted, at most one write is outstanding and offers the oldest bytes, and the buffer never overflows |
| TcpSend.EverythingOffered | src/tcpasio.cpp:206-213 | On every run a write that is started offers everything pending at the time |
| TcpSend.KeepsSendingIffNoFailure | src/tcpasio.cpp:189-196 | A write is outstanding exactly when something is pending, precisely on the runs without a failed completion |
| TcpSend.CompletionsFit | src/tcpasio.cpp:189-196 | On every run a completion of any size never erases more than the buffer holds |
| AsciiText.SplitBy | src/AsciiProtocol.cpp:106-106 | The splitting loop gives the parts between runs of the separator |
| AsciiText.SplitRuns | src/AsciiProtocol.cpp:106-106 | Adjacent separators count as one |
| AsciiText.CharacterClasses | src/AsciiProtocol.cpp:41-41 | Which characters are blanks and punctuation, by code |
| AsciiText.TrimPads | src/AsciiProtocol.cpp:53-54 | Trimming takes away the blanks on both sides and nothing else |
| AsciiText.SplitJoin | src/AsciiProtocol.cpp:106-106 | Splitting undoes joining for nonempty parts free of the separator |
| AsciiText.TrimRightConcat | src/AsciiProtocol.cpp:41-41 | What trimming does to a text with something appended |
| AsciiText.LowerKeysCompareExactly | src/AsciiProtocol.cpp:128-136 | Between known keys the comparison without case is equality |
| AsciiText.IequalsIsLower | src/AsciiProtocol.cpp:128-136 | The comparison without case is equality of the lower-cased texts |
| AsciiMessages.BuildOutput | src/AsciiProtocol.cpp:60-91 | Appends the pairs of the message in writing order, the time only when it is set |
| AsciiMessages.AsciiProtocol.OutputCompacted | src/AsciiProtocol.cpp:37-44 | The trimmed text and a newline go to the next of ten slots and the others are kept, exactly when they fit in the slot |
| AsciiMessages.AsciiProtocol.CompactProto | src/AsciiProtocol.cpp:60-92 | The slot returned holds the compacted message and n its length, exactly when it fits |
| AsciiMessages.ResolveTokens | src/AsciiProtocol.cpp:121-161 | The loop leaves in each member the last value given for its key, and unset members as constructed |
| AsciiMessages.ResolveText | src/AsciiProtocol.cpp:96-119 | Which message, if any, a received text stands for |
| AsciiRoundTrip.TokenResolves | src/AsciiProtocol.cpp:46-57 | A written pair is read back as its key and text, and is skipped exactly when the text is empty |
| AsciiRoundTrip.FindsItself | src/AsciiProtocol.cpp:128-136 | The chain of comparisons finds each known key, and no other one first |
| AsciiRoundTrip.ArrangementCollects | src/AsciiProtocol.cpp:121-161 | Whatever the order of the pairs, each key gets its text, or nothing when that is empty |
| AsciiRoundTrip.CompactText | src/AsciiProtocol.cpp:37-92 | The sent text is the type and the joined tokens, the last one trimmed |
| AsciiRoundTrip.TextLayout | src/AsciiProtocol.cpp:60-91 | The text before trimming, written out: which name stands for which member, in which order |
| AsciiRoundTrip.CompactIsLine | src/AsciiProtocol.cpp:37-44 | What is sent is that text without the punctuation and blanks at its end, and a newline |
| AsciiRoundTrip.AnyCaseFinds | src/AsciiProtocol.cpp:128-136 | A key is read in any mixture of cases |
| AsciiRoundTrip.LaterPairCounts | src/AsciiProtocol.cpp:125-137 | Of two pairs with one key the later counts, and a pair concerns its own key only |
| AsciiRoundTrip.FirstValueRead | src/AsciiProtocol.cpp:46-57 | Of several values behind one key the first is read |
| AsciiRoundTrip.BlanksSeparate | src/AsciiProtocol.cpp:103-104 | Any number of blanks may stand between the type and the pairs |
| AsciiRoundTrip.TypesRead | src/AsciiProtocol.cpp:107-118 | A message is read exactly for the types cooler and vacuum, in any case after a lower-case first letter |
| AsciiRoundTrip.UnsetMembers | src/AsciiProtocol.h:24-56 | Members no pair sets keep empty strings and FLT_MIN |
| AsciiRoundTrip.ReadsBack | src/AsciiProtocol.cpp:60-161 | Resolve of a compacted message is the message, with the pressure of a vacuum trimmed |
| AsciiRoundTrip.RoundTripIff | src/AsciiProtocol.cpp:60-161 | For all strings: a message comes back whole if and only if its strings are free of commas, equals signs and outer blanks and the pressure of a vacuum does not end in punctuation |
| AsciiRoundTrip.ReadIsClean | src/AsciiProtocol.cpp:46-57 | Every string read from any text is free of commas, equals signs and outer blanks |
| AsciiRoundTrip.OrderIrrelevant | src/AsciiProtocol.cpp:121-161 | Every permutation of a message's pairs reads back as the message |
| AsciiRoundTrip.TextSurvives | src/AsciiProtocol.cpp:37-44 | A text handed out stays in its slot while the next nine go out |

## Left out

- Floating point: rounding, overflow, NaN and infinities. Arithmetic is over exact reals; where the source divides by zero the model stops with a status of its own and says nothing about the values.
- Matrices are addressed by row and column, not by pointer into a flat array; only the grid of `spline2` and `splint2` is flat. Input tables are sequences, so an output array that overlaps an input is not modelled; scratch allocation always succeeds.
- MatrixInverse.MatInvert: what the array holds after a refusal is not stated.
- GaussianConvolution.GaussConvolve.NewKernel: the source reallocates when the area changes and reuses the memory otherwise; the model allocates when either side changes.
- Selection.KSelect: for real elements, one instance of the template.
- The clamped ends of `spline`, which `spline2` and `splint2` never use; `gauss_std_convolve`, which is the same kernel and convolution with equal sizes.
- The exp and sqrt tail of `GaussFit2D` (amplitude and widths), `erf` and its relatives, spherical geometry and projection, photometric conversions, `Correlation`, `MatTrans`, `Bilinear`, endianness: transcendental, or simple expressions.
- Controllers.Controller.SerialRead: where the source would write past its receive array, or take the front of an empty list, the model stops with an outcome of its own; likewise Controllers.Controller.Write and AsciiMessages.AsciiProtocol.OutputCompacted past a message buffer or a slot.
- Controllers.Controller.DecodeData: what a nine-byte cooler frame stores is an uninitialised variable, here a parameter.
- Records start with absent fields rather than uninitialised ones. Plain `char` is taken as signed.
- ControllerRuns.ReportsAreGood: the environment is assumed to have a device before the first cycle and to answer each command once, for its own device and, for coolers, function, a vacuum with data. One body of a thread loop is one atomic step, and the condition variable keeps a notification until it is waited for.
- The heartbeat thread, sleeps, a closed port, error callbacks, logging, database upload and the network loop of the reports.
- FrameReception.ChunkIndependence: for coolers and seven-bit data; the suffix is bounded by the buffer, and what it holds is left to later callbacks.
- The send side of `SerialComm`, whose restart happens outside its lock, and `TCPClient::Read` with a nonzero position, which erases the first bytes rather than those read.
- AsciiRoundTrip.RoundTripIff: numbers go through an abstract pair of show and atof that agree on the numbers sent. Locales, Unicode and embedded zeros are not modelled.
- `AnnexControl` and `MessageQueue`, `DataTransfer`, `NTPClient`, `GLog`, the daemon, and the XML configuration: foreign libraries, sockets and files.
